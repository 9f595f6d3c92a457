/** The TTYBUS object itself (sw/host/ttybus.cpp): its tables, its command buffer and its loops,
    proved to send and to return what `TtyCode`, `TtyRead` and `TtyReply` say.  The serial port is two
    streams: the characters handed to it and the characters it will deliver. */
module TtyBus {
  import opened SixBit
  import opened TtyCode
  import opened TtyRead
  import opened TtyReply
  import Arith
  import Fold
  import TtyStray
  import TtySession

  const MAXWRLEN: nat := 32
  const MAXRDLEN: nat := 1024

  lemma Digits1(n: nat)
    ensures Digits(n, 1) == [n % 64]
  {
    assert Digits(n / 64, 0) == [];
  }

  lemma Digits2(n: nat)
    ensures Digits(n, 2) == [n / 64 % 64, n % 64]
  {
    Digits1(n / 64);
  }

  lemma Digits3(n: nat)
    ensures Digits(n, 3) == [n / 4096 % 64, n / 64 % 64, n % 64]
  {
    Digits2(n / 64);
    Arith.DivDiv(n, 64, 64);
  }

  lemma Digits4(n: nat)
    ensures Digits(n, 4) == [n / 262144 % 64, n / 4096 % 64, n / 64 % 64, n % 64]
  {
    Digits3(n / 64);
    Arith.DivDiv(n, 64, 64);
    Arith.DivDiv(n, 64, 4096);
  }

  lemma Digits5(n: nat)
    ensures Digits(n, 5) == [n / 16777216 % 64, n / 262144 % 64, n / 4096 % 64, n / 64 % 64, n % 64]
  {
    Digits4(n / 64);
    Arith.DivDiv(n, 64, 64);
    Arith.DivDiv(n, 64, 4096);
    Arith.DivDiv(n, 64, 262144);
  }

  /** The host, and the line, once the first n words are encoded. */
  ghost function HostAt(h1: Host, inc: bool, ws: seq<Word>, n: nat): Host
    requires HostValid(h1) && n <= |ws|
  {
    AfterWords(h1, inc, ws[..n])
  }

  ghost function TextAt(h1: Host, inc: bool, ws: seq<Word>, n: nat, head: seq<char>): seq<char>
    requires HostValid(h1) && n <= |ws|
  {
    head + Chars(WordsCode(h1, inc, ws[..n]))
  }

  lemma TextAppend(h1: Host, inc: bool, ws: seq<Word>, n: nat, head: seq<char>)
    requires HostValid(h1) && n < |ws|
    ensures var h := HostAt(h1, inc, ws, n);
            && |h.wtbl| == 512 && h.wraddr < 256
            && HostAt(h1, inc, ws, n + 1) == AfterWord(h, inc, ws[n])
            && TextAt(h1, inc, ws, n + 1, head)
               == TextAt(h1, inc, ws, n, head) + Chars(WordCode(h, inc, ws[n]))
  {
    var next := ws[..n + 1];
    assert next[..|next| - 1] == ws[..n] && next[|next| - 1] == ws[n];
    CharsConcat(WordsCode(h1, inc, ws[..n]), WordCode(AfterWords(h1, inc, ws[..n]), inc, ws[n]));
  }

  lemma TextEnds(h1: Host, inc: bool, ws: seq<Word>, head: seq<char>)
    requires HostValid(h1)
    ensures HostAt(h1, inc, ws, 0) == h1 && TextAt(h1, inc, ws, 0, head) == head
    ensures HostAt(h1, inc, ws, |ws|) == AfterWords(h1, inc, ws)
    ensures TextAt(h1, inc, ws, |ws|, head) == head + Chars(WordsCode(h1, inc, ws))
  {
    assert ws[..0] == [] && ws[..|ws|] == ws;
  }

  /** A reply stream for n words: all n of them, or fewer and then an error codeword. */
  ghost predicate Answers(rs: seq<Reply>, n: nat) {
    && rs != [] && (forall r <- rs :: ReplyStops(r))
    && (forall i :: 0 <= i < |rs| - 1 ==> IsData(rs[i].data))
    && if IsFault(rs[|rs| - 1].data) then |rs| <= n else |rs| == n
  }

  ghost predicate DataUpTo(rs: seq<Reply>, k: nat) {
    && k <= |rs| && (forall r <- rs :: ReplyStops(r))
    && (forall i :: 0 <= i < k ==> WellFormed(rs[i].data) && IsData(rs[i].data))
  }

  lemma AnswersLast(rs: seq<Reply>, n: nat, k: nat)
    requires Answers(rs, n) && DataUpTo(rs, k) && k < n
    ensures k < |rs|
  {
  }

  ghost function HostAfter(h: Host, rs: seq<Reply>, k: nat): Host
    requires HostValid(h) && DataUpTo(rs, k)
  {
    TtySession.AfterReplies(h, rs[..k])
  }

  ghost function WordsUpTo(h: Host, rs: seq<Reply>, k: nat): seq<Word>
    requires HostValid(h) && DataUpTo(rs, k)
  {
    TtySession.ReplyWords(h, rs[..k])
  }

  ghost function Coming(rs: seq<Reply>, k: nat, rest: seq<char>): seq<char>
    requires DataUpTo(rs, k)
  {
    WireReplies(rs[k..]) + rest
  }

  lemma ComingStep(h: Host, rs: seq<Reply>, k: nat, rest: seq<char>)
    requires HostValid(h) && DataUpTo(rs, k) && k < |rs|
    ensures DataUpTo(rs, k) && WireReplies(rs[k..]) + rest
            == WireReply(rs[k]) + (WireReplies(rs[k + 1..]) + rest)
  {
    var all := rs[k..];
    assert all[1..] == rs[k + 1..] && all[0] == rs[k];
    Fold.Assoc(WireReply(rs[k]), WireReplies(rs[k + 1..]), rest);
  }

  lemma DataStep(h: Host, rs: seq<Reply>, k: nat)
    requires HostValid(h) && DataUpTo(rs, k + 1)
    ensures HostValid(HostAfter(h, rs, k))
    ensures HostAfter(h, rs, k + 1) == AfterReply(HostAfter(h, rs, k), rs[k])
    ensures WordsUpTo(h, rs, k + 1) == WordsUpTo(h, rs, k) + [ReplyWord(HostAfter(h, rs, k), rs[k])]
  {
    assert rs[..k + 1][..k] == rs[..k];
  }

  /** The characters of a request as readcmd computes them. */
  lemma ReadCodeAsWritten(inc: bool, n: nat)
    requires 1 <= n < 520
    ensures n <= 8 ==> ReadCode(inc, n) == [0x20 + (n - 1) % 8 * 2 + Bit(inc)]
    ensures n > 8 ==> ReadCode(inc, n) == [0x30 + (n - 9) / 64 % 8 * 2 + Bit(inc), (n - 9) % 64]
  {
  }

  /** What is still to come of a reply once k skipped tokens have been read. */
  ghost function Pending(r: Reply, k: nat, rest: seq<char>): seq<char>
    requires ReplyStops(r) && k <= |r.skip|
  {
    Wires(r.skip[k..]) + Wire(r.data) + rest
  }

  lemma PendingSkip(r: Reply, k: nat, rest: seq<char>, h: Host)
    requires ReplyStops(r) && k < |r.skip| && HostValid(h)
    ensures Pending(r, k, rest) == Wire(r.skip[k]) + Pending(r, k + 1, rest)
    ensures AfterSkips(h, r.skip[..k + 1]) == AfterSkip(AfterSkips(h, r.skip[..k]), r.skip[k])
  {
    PendingNext(r.skip, k, Wire(r.data), rest);
    SkipsNext(h, r.skip, k);
  }

  lemma PendingNext(ts: seq<Token>, k: nat, data: seq<char>, rest: seq<char>)
    requires k < |ts| && forall t <- ts :: WellFormed(t)
    ensures Wires(ts[k..]) + data + rest == Wire(ts[k]) + (Wires(ts[k + 1..]) + data + rest)
  {
    WiresStep(ts, k);
    Fold.Append3(Wire(ts[k]), Wires(ts[k + 1..]), data, rest);
  }

  lemma SkipsNext(h: Host, ts: seq<Token>, k: nat)
    requires k < |ts| && HostValid(h)
    ensures AfterSkips(h, ts[..k + 1]) == AfterSkip(AfterSkips(h, ts[..k]), ts[k])
  {
    var s := ts[..k + 1];
    assert s[..k] == ts[..k] && s[k] == ts[k];
  }

  lemma WiresStep(ts: seq<Token>, k: nat)
    requires k < |ts| && forall t <- ts :: WellFormed(t)
    ensures Wires(ts[k..]) == Wire(ts[k]) + Wires(ts[k + 1..])
  {
    var s := ts[k..];
    assert s[1..] == ts[k + 1..] && s[0] == ts[k];
  }

  lemma PendingData(r: Reply, rest: seq<char>)
    requires ReplyStops(r)
    ensures Pending(r, |r.skip|, rest) == Wire(r.data) + rest
  {
    assert r.skip[|r.skip|..] == [];
  }

  lemma FullStream(h: Host, rs: seq<Reply>, n: nat, rest: seq<char>)
    requires HostValid(h) && Answers(rs, n) && DataUpTo(rs, n)
    ensures |rs| == n && HostAfter(h, rs, n) == TtySession.AfterReplies(h, rs)
    ensures WordsUpTo(h, rs, n) == TtySession.ReplyWords(h, rs) && Coming(rs, n, rest) == rest
  {
    assert rs[..n] == rs && rs[n..] == [];
  }

  /** An interrupt is announced among these codewords. */
  ghost predicate Rings(ts: seq<Token>) {
    exists t <- ts :: t.Interrupt?
  }

  /** Or before the data of one of the first n replies. */
  ghost predicate Rung(rs: seq<Reply>, n: nat)
    requires n <= |rs|
  {
    n > 0 && (Rung(rs, n - 1) || Rings(rs[n - 1].skip))
  }

  lemma {:induction false} RungMeans(rs: seq<Reply>, n: nat)
    requires n <= |rs|
    ensures Rung(rs, n) <==> exists k, t :: 0 <= k < n && t in rs[k].skip && t.Interrupt?
  {
    if n > 0 {
      RungMeans(rs, n - 1);
    }
  }

  lemma RingsNext(ts: seq<Token>, k: nat)
    requires k < |ts|
    ensures Rings(ts[..k + 1]) <==> Rings(ts[..k]) || ts[k].Interrupt?
  {
    var s := ts[..k + 1];
    assert s == ts[..k] + [ts[k]];
  }

  /** All of these characters have gone out; or some of them, if an error came in between. */
  ghost predicate SentSome(sent: seq<char>, goal: seq<char>, err: bool) {
    if err then exists more :: sent + more == goal else sent == goal
  }

  /** How a read call ends: normally, thrown out, or with the process giving up because the device
      ended somewhere else. */
  datatype ReadResult = Done | BusErr(addr: Word) | WrongAddress

  /** How a buffer of n words is split over writes to the serial port. */
  function BatchSizes(n: nat): seq<nat> {
    if n == 0 then [] else if n <= 32 then [n] else [32] + BatchSizes(n - 32)
  }

  /** These batches have taken the first nw of n words. */
  ghost predicate Tally(batches: seq<nat>, n: nat, nw: nat) {
    if batches == [] then nw == 0
    else
      var last := batches[|batches| - 1];
      && last <= nw <= n && Tally(batches[..|batches| - 1], n, nw - last)
      && 1 <= last == (if n - (nw - last) > MAXWRLEN then MAXWRLEN else n - (nw - last))
  }

  lemma TallyMore(batches: seq<nat>, n: nat, nw: nat, k: nat)
    requires Tally(batches, n, nw) && nw < n && k == if n - nw > MAXWRLEN then MAXWRLEN else n - nw
    ensures Tally(batches + [k], n, nw + k)
  {
    assert (batches + [k])[..|batches|] == batches;
  }

  lemma {:induction false} TallyDone(batches: seq<nat>, n: nat, nw: nat)
    requires Tally(batches, n, nw) && nw <= n
    ensures batches + BatchSizes(n - nw) == BatchSizes(n)
  {
    if batches != [] {
      var init, last := batches[..|batches| - 1], batches[|batches| - 1];
      TallyDone(init, n, nw - last);
      assert BatchSizes(n - (nw - last)) == [last] + BatchSizes(n - nw);
      assert batches == init + [last];
      Fold.Shift(init, last, BatchSizes(n - nw));
    }
  }

  class Bus {
    var addrSet: bool
    var last: Word
    var wraddr: nat
    var wrloaded: bool
    var rdaddr: nat
    const wtbl: array<Word>
    const rtbl: array<Word>
    var buf: array<char>
    var interrupt: bool
    var busErr: bool
    var sent: seq<char>
    var incoming: seq<char>
    ghost var asked: nat  // words requested so far
    ghost var got: nat    // words received so far

    ghost predicate Valid()
      reads this`wraddr, this`rdaddr, this`buf, this`addrSet, this`last
    {
      && wtbl.Length == 512 && rtbl.Length == 1024 && wtbl != rtbl
      && wraddr < 256 && rdaddr < 1024 && 128 <= buf.Length
      && (addrSet ==> last % 4 == 0)
    }

    ghost function State(): (h: Host)
      reads this`wraddr, this`rdaddr, this`buf, this`addrSet, this`last, this`wrloaded, wtbl, rtbl
      requires Valid()
      ensures HostValid(h)
    {
      Host(addrSet, last, wraddr, wrloaded, wtbl[..], rdaddr, rtbl[..])
    }

    constructor (arriving: seq<char>)
      ensures Valid() && !addrSet && !wrloaded && wraddr == 0 && rdaddr == 0
      ensures sent == [] && incoming == arriving && asked == got == 0 && fresh(wtbl) && fresh(rtbl) && fresh(buf)
    {
      wtbl := new Word[512];
      rtbl := new Word[1024];
      buf := new char[128];
      addrSet, last, wraddr, wrloaded, rdaddr := false, 0, 0, false, 0;
      interrupt, busErr, sent, incoming := false, false, [], arriving;
      asked, got := 0, 0;
    }

    /** Room for more than len characters, keeping the buffer when it is large enough. */
    method BufAlloc(len: nat)
      requires Valid()
      modifies this`buf
      ensures Valid() && State() == old(State())
      ensures len <= buf.Length
      ensures old(buf.Length) >= len ==> buf == old(buf)
      ensures old(buf.Length) < len ==> fresh(buf)
    {
      if buf.Length >= len {
        return;
      }
      var size := len - len % 64 + len % 2 + 64;
      buf := new char[size];
    }

    method Put(ptr: nat, v: Six) returns (next: nat)
      requires ptr < buf.Length
      modifies buf
      ensures next == ptr + 1 && buf[..next] == old(buf[..ptr]) + [CharEnc(v)]
    {
      buf[ptr] := CharEnc(v);
      next := ptr + 1;
    }

    /** Write one codeword of up to six characters. */
    method PutCode(ptr: nat, code: seq<Six>) returns (next: nat)
      requires ptr + |code| <= buf.Length
      modifies buf
      ensures next == ptr + |code| && buf[..next] == old(buf[..ptr]) + Chars(code)
    {
      next := ptr;
      for i := 0 to |code|
        invariant next == ptr + i
        invariant buf[..next] == old(buf[..ptr]) + Chars(code[..i])
      {
        next := Put(next, code[i]);
        assert Chars(code[..i + 1]) == Chars(code[..i]) + [CharEnc(code[i])];
      }
      assert code[..|code|] == code;
    }

    /** The difference format, if the difference has one. */
    method PutDiff(d: nat) returns (ptr: nat)
      requires buf.Length >= 6
      modifies buf
      ensures ptr == |DiffCode(d)| && buf[..ptr] == Chars(DiffCode(d))
    {
      if d < 32 {
        Digits1(d);
        ptr := PutCode(0, [0x09, d % 64]);
      } else if d < 2048 {
        Digits2(d);
        ptr := PutCode(0, [0x0b, d / 64 % 64, d % 64]);
      } else if d < 131072 {
        Digits3(d);
        ptr := PutCode(0, [0x0d, d / 4096 % 64, d / 64 % 64, d % 64]);
      } else if d < 8388608 {
        Digits4(d);
        ptr := PutCode(0, [0x0f, d / 262144 % 64, d / 4096 % 64, d / 64 % 64, d % 64]);
      } else {
        ptr := 0;
      }
    }

    /** The absolute format, overwriting the difference when it is no longer. */
    method PutAbs(w: nat, ghost diff: seq<Six>, have: nat) returns (ptr: nat)
      requires buf.Length >= 6 && w < 1073741824
      requires have == |diff| && have <= buf.Length && buf[..have] == Chars(diff)
      modifies buf
      ensures ptr == |AbsCode(w, diff)| <= buf.Length && buf[..ptr] == Chars(AbsCode(w, diff))
    {
      if w <= 0x3f && (have == 0 || have >= 2) {
        Digits1(w);
        ptr := PutCode(0, [0x08, w % 64]);
      } else if w <= 0xfff && (have == 0 || have >= 3) {
        Digits2(w);
        ptr := PutCode(0, [0x0a, w / 64 % 64, w % 64]);
      } else if w <= 0x3ffff && (have == 0 || have >= 4) {
        Digits3(w);
        ptr := PutCode(0, [0x0c, w / 4096 % 64, w / 64 % 64, w % 64]);
      } else if w <= 0xffffff && (have == 0 || have >= 5) {
        Digits4(w);
        ptr := PutCode(0, [0x0e, w / 262144 % 64, w / 4096 % 64, w / 64 % 64, w % 64]);
      } else if have == 0 {
        Digits5(w);
        ptr := PutCode(0, [0, w / 16777216 % 64, w / 262144 % 64, w / 4096 % 64, w / 64 % 64, w % 64]);
      } else {
        ptr := have;
      }
    }

    /** Leaves the address code at the start of the buffer; a misaligned address throws. */
    method EncodeAddress(a: Word) returns (err: bool, ptr: nat)
      requires Valid()
      modifies buf, this`rdaddr
      ensures Valid() && err == (a % 4 != 0)
      ensures err ==> State() == old(State())
      ensures var code := AddressCode(addrSet, last, a);
              !err ==> && ptr == |code| <= buf.Length && buf[..ptr] == Chars(code)
                       && State() == old(State()).(rdaddr := if code == [] then old(rdaddr) else 0)
    {
      err, ptr := a % 4 != 0, 0;
      if err || (addrSet && a == last) {
        return;
      }
      if addrSet {
        ptr := PutDiff((a - last) % WORD_LIMIT / 4);
      }
      ghost var diff := if addrSet then DiffCode((a - last) % WORD_LIMIT / 4) else [];
      ptr := PutAbs(a / 4, diff, ptr);
      AddressCodeEmpty(addrSet, last, a);
      rdaddr := 0;
    }

    /** The search loop of writev. */
    method Search(val: Word) returns (caddr: nat)
      requires Valid()
      ensures caddr == FindBack(State(), val, 1)
    {
      caddr := 0;
      var i := 1;
      while i < 256
        invariant 1 <= i <= 256 && caddr == 0
        invariant FindBack(State(), val, 1) == FindBack(State(), val, i)
      {
        var tstaddr := (wraddr - i) % 256;
        if !wrloaded && tstaddr > wraddr {
          break;
        }
        if wtbl[tstaddr] == val {
          caddr := (wraddr - tstaddr) % 256;
          break;
        }
        i := i + 1;
      }
    }

    method PutRef(ptr: nat, inc: bool, caddr: nat) returns (next: nat)
      requires ptr + 6 <= buf.Length && caddr < 256
      modifies buf
      ensures next == ptr + 2
      ensures buf[..next] == old(buf[..ptr]) + Chars([16 + 2 * (caddr / 64) + Bit(inc), caddr % 64])
    {
      next := PutCode(ptr, [2 * (caddr / 64) + (if inc then 1 else 0) + 0x10, caddr % 64]);
    }

    method PutRaw(ptr: nat, inc: bool, val: Word) returns (next: nat)
      requires ptr + 6 <= buf.Length
      modifies buf
      ensures next == ptr + 6
      ensures buf[..next] == old(buf[..ptr])
                             + Chars([24 + 2 * (val / 1073741824) + Bit(inc)] + Digits(val, 5))
    {
      Digits5(val);
      next := PutCode(ptr, [2 * (val / 1073741824) + (if inc then 1 else 0) + 0x18,
                            val / 16777216 % 64, val / 262144 % 64, val / 4096 % 64, val / 64 % 64,
                            val % 64]);
    }

    method Remember(val: Word)
      requires Valid()
      modifies this`wraddr, this`wrloaded, wtbl
      ensures Valid()
      ensures State() == old(State()).(wtbl := old(wtbl[..])[old(wraddr) := val],
                                       wraddr := (old(wraddr) + 1) % 256,
                                       wrloaded := old(wrloaded) || old(wraddr) == 255)
    {
      wtbl[wraddr] := val;
      wraddr := (wraddr + 1) % 256;
      if wraddr == 0 {
        wrloaded := true;
      }
    }

    method MoveOn(inc: bool)
      requires Valid()
      modifies this`last
      ensures Valid() && State() == old(State()).(last := Advance(old(last), inc))
    {
      last := Advance(last, inc);
    }

    /** One word: a table reference when the table has it, all 32 bits otherwise. */
    method PutWord(ptr: nat, inc: bool, val: Word) returns (next: nat)
      requires Valid() && ptr + 6 <= buf.Length
      modifies this`wraddr, this`wrloaded, this`last, wtbl, buf
      ensures Valid() && State() == AfterWord(old(State()), inc, val)
      ensures next == ptr + |WordCode(old(State()), inc, val)| <= ptr + 6
      ensures buf[..next] == old(buf[..ptr]) + Chars(WordCode(old(State()), inc, val))
    {
      ghost var h := State();
      var caddr := Search(val);
      if caddr != 0 {
        next := PutRef(ptr, inc, caddr);
        assert State() == h;
      } else {
        next := PutRaw(ptr, inc, val);
        assert State() == h;
        Remember(val);
      }
      MoveOn(inc);
    }

    /** The state is h, and what has been sent and the buffer up to ptr together spell text. */
    ghost predicate Holds(h: Host, text: seq<char>, ptr: nat)
      reads this, wtbl, rtbl, buf
    {
      Valid() && ptr <= buf.Length && State() == h && sent + buf[..ptr] == text
    }

    method PutNext(ptr: nat, inc: bool, w: Word, ghost h: Host, ghost text: seq<char>)
      returns (next: nat)
      requires Holds(h, text, ptr) && ptr + 6 <= buf.Length
      modifies this`wraddr, this`wrloaded, this`last, wtbl, buf
      ensures Holds(AfterWord(h, inc, w), text + Chars(WordCode(h, inc, w)), next) && next <= ptr + 6
    {
      ghost var was, code := buf[..ptr], Chars(WordCode(h, inc, w));
      next := PutWord(ptr, inc, w);
      assert sent + buf[..next] == sent + was + code;
    }

    /** The words from nw up to end, appended to the buffer. */
    method PutBatch(start: nat, inc: bool, ws: seq<Word>, nw: nat, end: nat,
                    ghost h1: Host, ghost head: seq<char>)
      returns (ptr: nat)
      requires HostValid(h1) && nw <= end <= |ws| && start + 6 * (end - nw) <= buf.Length
      requires Holds(HostAt(h1, inc, ws, nw), TextAt(h1, inc, ws, nw, head), start)
      modifies this`wraddr, this`wrloaded, this`last, wtbl, buf
      ensures Holds(HostAt(h1, inc, ws, end), TextAt(h1, inc, ws, end, head), ptr)
      ensures ptr <= start + 6 * (end - nw)
    {
      ptr := start;
      var i := nw;
      while i < end
        invariant nw <= i <= end && ptr <= start + 6 * (i - nw)
        invariant Holds(HostAt(h1, inc, ws, i), TextAt(h1, inc, ws, i, head), ptr)
      {
        TextAppend(h1, inc, ws, i, head);
        ptr := PutNext(ptr, inc, ws[i], HostAt(h1, inc, ws, i), TextAt(h1, inc, ws, i, head));
        i := i + 1;
      }
    }

    /** Hand the first ptr characters to the serial port. */
    method Flush(ptr: nat)
      requires ptr <= buf.Length
      modifies this`sent
      ensures sent == old(sent) + buf[..ptr]
    {
      sent := sent + buf[..ptr];
    }

    method PutNewline(ptr: nat) returns (next: nat)
      requires ptr < buf.Length
      modifies buf
      ensures next == ptr + 1 && buf[..next] == old(buf[..ptr]) + ['\n']
    {
      buf[ptr] := '\n';
      next := ptr + 1;
    }

    /** The batches of at most 32 words; only the last one ends the line.  `batches` counts the words of each
        write to the port. */
    method WriteBatches(first: nat, inc: bool, ws: seq<Word>, ghost h1: Host, ghost head: seq<char>)
      returns (ghost batches: seq<nat>)
      requires HostValid(h1) && ws != [] && Holds(h1, head, first)
      requires first <= 6 && (|ws| + 2) * 6 <= buf.Length
      modifies this`last, this`wraddr, this`wrloaded, this`sent, buf, wtbl
      ensures Holds(AfterWords(h1, inc, ws), head + Chars(WordsCode(h1, inc, ws)) + ['\n'], 0)
      ensures batches == BatchSizes(|ws|)
    {
      var nw: nat, ptr: nat := 0, first;
      batches := [];
      TextEnds(h1, inc, ws, head);
      while nw < |ws|
        invariant nw <= |ws| && Batched(inc, ws, nw, ptr, h1, head) && Tally(batches, |ws|, nw)
      {
        var end := if |ws| - nw > MAXWRLEN then nw + MAXWRLEN else |ws|;
        NextBatch(inc, ws, nw, end, ptr, h1, head);
        TallyMore(batches, |ws|, nw, end - nw);
        batches := batches + [end - nw];
        nw, ptr := end, 0;
      }
      TallyEnd(batches, |ws|);
    }

    lemma TallyEnd(batches: seq<nat>, n: nat)
      requires Tally(batches, n, n)
      ensures batches == BatchSizes(n)
    {
      TallyDone(batches, n, n);
      assert BatchSizes(0) == [];
    }

    /** The first nw words are sent, or on their way in the buffer; with the last of them, the line has ended. */
    ghost predicate Batched(inc: bool, ws: seq<Word>, nw: nat, ptr: nat, h1: Host, head: seq<char>)
      requires HostValid(h1) && nw <= |ws|
      reads this, wtbl, rtbl, buf
    {
      && ptr <= 6 && (|ws| + 2) * 6 <= buf.Length
      && (if nw < |ws| then Holds(HostAt(h1, inc, ws, nw), TextAt(h1, inc, ws, nw, head), ptr)
          else ptr == 0 && Holds(HostAt(h1, inc, ws, nw), TextAt(h1, inc, ws, nw, head) + ['\n'], 0))
    }

    method NextBatch(inc: bool, ws: seq<Word>, nw: nat, end: nat, start: nat, ghost h1: Host, ghost head: seq<char>)
      requires HostValid(h1) && nw < end <= |ws| && Batched(inc, ws, nw, start, h1, head)
      modifies this`last, this`wraddr, this`wrloaded, this`sent, buf, wtbl
      ensures Batched(inc, ws, end, 0, h1, head)
    {
      var ptr := PutBatch(start, inc, ws, nw, end, h1, head);
      SendBatch(ptr, end == |ws|, HostAt(h1, inc, ws, end), TextAt(h1, inc, ws, end, head));
    }

    method SendBatch(ptr: nat, final: bool, ghost h: Host, ghost text: seq<char>)
      requires Holds(h, text, ptr) && ptr < buf.Length
      modifies this`sent, buf
      ensures Holds(h, if final then text + ['\n'] else text, 0)
    {
      var n := ptr;
      if final {
        n := PutNewline(ptr);
        assert sent + buf[..n] == text + ['\n'];
      }
      Flush(n);
      assert sent + buf[..0] == sent;
    }

    /** writeio, writez and writei: the state and the characters of `WriteCall`, in writes to the port of at
        most 32 words each. */
    method WriteV(a: Word, inc: bool, ws: seq<Word>) returns (err: bool, ghost batches: seq<nat>)
      requires Valid()
      modifies this`buf, this`addrSet, this`last, this`rdaddr, this`wraddr, this`wrloaded, this`sent,
               buf, wtbl
      ensures Valid() && batches == if err then [] else BatchSizes(|ws|)
      ensures var o := WriteCall(old(State()), a, inc, ws);
              err == o.err && State() == o.host && sent == old(sent) + o.sent
    {
      ghost var h := State();
      var ptr;
      batches := [];
      err, ptr := StartWrite(a, |ws|);
      if !err && ws != [] {
        ghost var h1, head := AtAddress(h, a), sent + Chars(AddressCode(h.addrSet, h.last, a));
        batches := WriteBatches(ptr, inc, ws, h1, head);
        assert sent + buf[..0] == sent;
        Fold.Append3(old(sent), Chars(AddressCode(h.addrSet, h.last, a)),
                     Chars(WordsCode(h1, inc, ws)), ['\n']);
      }
    }

    /** Room for the whole command, and its address. */
    method StartWrite(a: Word, len: nat) returns (err: bool, ptr: nat)
      requires Valid()
      modifies this`buf, this`addrSet, this`last, this`rdaddr, buf
      ensures Valid() && err == (a % 4 != 0) && (buf == old(buf) || fresh(buf))
      ensures err ==> State() == old(State())
      ensures var h := old(State());
              !err ==> && ptr <= 6 && (len + 2) * 6 <= buf.Length && State() == AtAddress(h, a)
                       && Holds(AtAddress(h, a), sent + Chars(AddressCode(h.addrSet, h.last, a)), ptr)
    {
      BufAlloc((len + 2) * 6);
      err, ptr := EncodeAddress(a);
      if !err {
        AddressCodeFits(addrSet, last, a);
        last, addrSet := a, true;
      }
    }

    // -------------------------------------------------------------------------------------------
    // Reading

    /** The serial port delivers at least one and at most len characters into the buffer. */
    method PortRead(off: nat, len: nat) returns (nr: nat)
      requires 1 <= len && off + len <= buf.Length && incoming != []
      modifies this`incoming, buf
      ensures 1 <= nr <= len && nr <= |old(incoming)|
      ensures incoming == old(incoming)[nr..]
      ensures buf[..off] == old(buf[..off]) && buf[off..off + nr] == old(incoming)[..nr]
    {
      nr :| 1 <= nr <= len && nr <= |incoming|;
      ghost var head := buf[..off];
      for i := 0 to nr
        modifies buf
        invariant buf[..off] == head && buf[off..off + i] == incoming[..i]
      {
        buf[off + i] := incoming[i];
      }
      incoming := incoming[nr..];
    }

    /** Read up to len characters and squeeze out the strays, in place and as the source does it. */
    method LclReadCode(off: nat, len: nat) returns (ret: nat, ghost got: nat)
      requires 1 <= len && off + len <= buf.Length && incoming != []
      modifies this`incoming, buf
      ensures 1 <= got <= len && got <= |old(incoming)| && incoming == old(incoming)[got..]
      ensures buf[..off] == old(buf[..off])
      ensures var w := TtyStray.Swept(IsCode, old(incoming)[..got], got);
              ret == w.dp && buf[off..off + got] == w.b
    {
      var nr := PortRead(off, len);
      got := nr;
      ret := Squeeze(off, nr, buf[off..off + nr]);
    }

    method Squeeze(off: nat, nr: nat, ghost cs: seq<char>) returns (dp: nat)
      requires off + nr <= buf.Length && buf[off..off + nr] == cs
      modifies buf
      ensures buf[..off] == old(buf[..off])
      ensures dp == TtyStray.Swept(IsCode, cs, nr).dp
      ensures buf[off..off + nr] == TtyStray.Swept(IsCode, cs, nr).b
    {
      dp := 0;
      var i := 0;
      while i < nr
        invariant i <= nr && buf[..off] == old(buf[..off])
        invariant dp == TtyStray.Swept(IsCode, cs, i).dp
        invariant buf[off..off + nr] == TtyStray.Swept(IsCode, cs, i).b
      {
        ghost var w := TtyStray.Swept(IsCode, cs, i);
        assert buf[off..off + nr][i] == buf[off + i] && buf[off..off + nr][dp] == buf[off + dp];
        if IsCode(buf[off + i]) {
          buf[off + i] := buf[off + dp];
          dp := dp + 1;
        }
        i := i + 1;
        assert TtyStray.Swept(IsCode, cs, i) == TtyStray.SweepStep(IsCode, w, i - 1);
      }
    }

    /** All codes: nothing is lost and nothing moves. */
    lemma SweptClean(cs: seq<char>)
      requires forall c <- cs :: IsCode(c)
      ensures TtyStray.Swept(IsCode, cs, |cs|) == TtyStray.Sweep(cs, |cs|)
    {
      TtyStray.SweptShape(IsCode, cs, |cs|, |cs|);
    }

    /** lclreadcode for a single character. */
    method ReadOne() returns (nr: nat)
      requires 128 <= buf.Length && incoming != []
      modifies this`incoming, buf
      ensures nr == (if IsCode(old(incoming)[0]) then 1 else 0)
      ensures buf[0] == old(incoming)[0] && incoming == old(incoming)[1..]
    {
      ghost var cs := incoming[..1];
      ghost var got;
      nr, got := LclReadCode(0, 1);
      assert TtyStray.Swept(IsCode, cs, 1) == TtyStray.SweepStep(IsCode, TtyStray.Swept(IsCode, cs, 0), 0);
      assert buf[0..1][0] == cs[0];
    }

    /** The remaining characters of an n-character codeword. */
    method Fill(n: nat, ghost tail: seq<char>, ghost rest: seq<char>)
      requires 1 <= n <= 6 && 128 <= buf.Length
      requires incoming == tail + rest && |tail| == n - 1 && forall c <- tail :: IsCode(c)
      modifies this`incoming, buf
      ensures incoming == rest && buf[..n] == [old(buf[0])] + tail
    {
      var nr := 1;
      ghost var head := [buf[0]];
      while nr < n
        invariant 1 <= nr <= n && incoming == tail[nr - 1..] + rest
        invariant buf[..nr] == head + tail[..nr - 1]
      {
        nr := FillSome(nr, n, head, tail, rest);
      }
      assert tail[..n - 1] == tail;
    }

    method FillSome(nr: nat, n: nat, ghost head: seq<char>, ghost tail: seq<char>, ghost rest: seq<char>)
      returns (next: nat)
      requires 1 <= nr < n <= 6 && 128 <= buf.Length && |tail| == n - 1
      requires incoming == tail[nr - 1..] + rest && forall c <- tail :: IsCode(c)
      requires buf[..nr] == head + tail[..nr - 1]
      modifies this`incoming, buf
      ensures nr < next <= n && incoming == tail[next - 1..] + rest
      ensures buf[..next] == head + tail[..next - 1]
    {
      var k := ReadClean(nr, n - nr, tail[nr - 1..], rest);
      Fold.SliceOn(tail, nr - 1, k);
      next := nr + k;
      Joined(buf, nr, k, head, tail);
    }

    lemma Joined(b: array<char>, i: nat, k: nat, head: seq<char>, tail: seq<char>)
      requires 1 <= i && i + k <= b.Length && i - 1 + k <= |tail|
      requires b[..i] == head + tail[..i - 1] && b[i..i + k] == tail[i - 1..i - 1 + k]
      ensures b[..i + k] == head + tail[..i - 1 + k]
    {
      assert b[..i + k] == b[..i] + b[i..i + k];
      assert tail[..i - 1 + k] == tail[..i - 1] + tail[i - 1..i - 1 + k];
    }

    /** A read that meets no stray. */
    method ReadClean(off: nat, len: nat, ghost text: seq<char>, ghost rest: seq<char>) returns (k: nat)
      requires 1 <= len == |text| && off + len <= buf.Length
      requires incoming == text + rest && forall c <- text :: IsCode(c)
      modifies this`incoming, buf
      ensures 1 <= k <= len && incoming == text[k..] + rest
      ensures buf[..off] == old(buf[..off]) && buf[off..off + k] == text[..k]
    {
      ghost var m;
      k, m := LclReadCode(off, len);
      Fold.DropFront(text, rest, m);
      SweptClean(text[..m]);
    }

    /** The digits behind the first character of a codeword. */
    method Digest(n: nat, ghost code: seq<Six>) returns (val: nat)
      requires n == |code| >= 1 && n <= buf.Length && buf[..n] == Chars(code)
      ensures val == Val(code[1..])
    {
      val := 0;
      var i := 1;
      while i < n
        invariant 1 <= i <= n && val == Val(code[1..i])
      {
        AlphabetRoundTrip(code[i], buf[..n][i]);
        assert code[1..i + 1][..i - 1] == code[1..i];
        val := val * 64 + CharDec(buf[i]);
        i := i + 1;
      }
      assert code[1..n] == code[1..];
    }

    /** What readword does with a first character that is not data: the state moves as `AfterSkip`
        says, an error codeword throws, and data is left for later. */
    method TakeHead(ghost t: Token, ghost after: seq<char>) returns (found: bool, err: bool)
      requires Valid() && WellFormed(t) && !t.Stray?
      requires buf[0] == CharEnc(Code(t)[0]) && incoming == Chars(Code(t))[1..] + after
      modifies this`last, this`addrSet, this`interrupt, this`busErr, this`incoming, buf
      ensures Valid() && err == (t.BusReset? || t.BusError?) && found == IsData(t)
      ensures State() == if found then old(State()) else AfterSkip(old(State()), t)
      ensures interrupt == (old(interrupt) || t.Interrupt?) && busErr == (old(busErr) || err)
      ensures found ==> incoming == old(incoming) && buf[0] == old(buf[0])
      ensures !found ==> incoming == after
    {
      HeadOf(t);
      AlphabetRoundTrip(Code(t)[0], buf[0]);
      var sixbits := CharDec(buf[0]);
      found, err := false, false;
      if sixbits < 6 {
        err := TakeSingle(t, sixbits);
        assert Chars(Code(t))[1..] == [];
      } else if 8 <= sixbits < 16 {
        TakeAddress(t, sixbits, after);
      } else {
        found := true;
      }
    }

    /** What a first character says about its codeword. */
    lemma HeadOf(t: Token)
      requires WellFormed(t) && !t.Stray?
      ensures var v := Code(t)[0];
              && (v < 6 <==> |Code(t)| == 1 && !IsData(t)) && (8 <= v < 16 <==> t.AddrLong? || t.AddrShort?)
              && (6 <= v < 8 || v >= 16 <==> IsData(t))
              && ((v == 3 || v == 5) <==> t.BusReset? || t.BusError?) && (v == 4 <==> t.Interrupt?)
              && (8 <= v < 12 <==> t.AddrLong?)
    {
      ParseInvertsCode(t);
    }

    /** A codeword of one character. */
    method TakeSingle(ghost t: Token, sixbits: nat) returns (err: bool)
      requires Valid() && WellFormed(t) && !t.Stray? && Code(t)[0] == sixbits < 6
      modifies this`interrupt, this`busErr
      ensures err == (t.BusReset? || t.BusError?) && State() == AfterSkip(old(State()), t)
      ensures interrupt == (old(interrupt) || t.Interrupt?) && busErr == (old(busErr) || err)
    {
      HeadOf(t);
      err := false;
      if sixbits == 3 || sixbits == 5 {
        busErr, err := true, true;
      } else if sixbits == 4 {
        interrupt := true;
      }
    }

    /** An address codeword, long or short. */
    method TakeAddress(ghost t: Token, sixbits: nat, ghost after: seq<char>)
      requires Valid() && WellFormed(t) && (t.AddrLong? || t.AddrShort?) && Code(t)[0] == sixbits
      requires 8 <= sixbits < 16 && buf[0] == CharEnc(sixbits) && incoming == Chars(Code(t))[1..] + after
      modifies this`last, this`addrSet, this`incoming, buf
      ensures Valid() && State() == AfterSkip(old(State()), t) && incoming == after
    {
      HeadOf(t);
      ParseInvertsCode(t);
      if sixbits < 12 {
        var arg := TakeDigits(6, Code(t), after);
        TakeLong(t, sixbits, arg);
      } else {
        var arg := TakeDigits(sixbits - 12 + 2, Code(t), after);
        TakeShort(t, sixbits, arg);
      }
    }

    method TakeLong(ghost t: Token, v: nat, arg: nat)
      requires Valid() && t.AddrLong? && 8 <= v < 12 && t.n == 1073741824 * (v % 4) + arg
      modifies this`last, this`addrSet
      ensures Valid() && State() == AfterSkip(old(State()), t)
    {
      last, addrSet := (1073741824 * (v % 4) + arg) * 4 % WORD_LIMIT, true;
    }

    method TakeShort(ghost t: Token, v: nat, arg: nat)
      requires Valid() && t.AddrShort? && t.n == arg && arg < 16777216
      modifies this`last, this`addrSet
      ensures Valid() && State() == AfterSkip(old(State()), t)
    {
      last, addrSet := arg * 4 % WORD_LIMIT, true;
    }

    /** Collect the rest of an n-character codeword and read its digits. */
    method TakeDigits(n: nat, ghost code: seq<Six>, ghost after: seq<char>) returns (arg: nat)
      requires Valid() && 1 <= n == |code| <= 6
      requires buf[0] == CharEnc(code[0]) && incoming == Chars(code)[1..] + after
      modifies this`incoming, buf
      ensures Valid() && State() == old(State()) && incoming == after
      ensures arg == Val(code[1..])
      ensures buf[..n] == Chars(code)
    {
      ghost var tail := Chars(code)[1..];
      forall c | c in tail ensures IsCode(c) {
        var i :| 0 <= i < |tail| && tail[i] == c;
        AlphabetRoundTrip(code[i + 1], c);
      }
      Fill(n, tail, after);
      assert [CharEnc(code[0])] + tail == Chars(code);
      arg := Digest(n, code);
    }

    method TableWord(ghost t: Token, idx: nat, inc: bool) returns (val: Word)
      requires Valid() && WellFormed(t) && IsData(t) && !t.Raw? && idx == Distance(t) && inc == t.inc
      modifies this`last
      ensures Valid() && val == DataValue(old(State()), t) && State() == AfterData(old(State()), t)
    {
      val := rtbl[(rdaddr - idx) % 1024];
      MoveOn(inc);
    }

    method RawWord(ghost t: Token, w: Word, inc: bool) returns (val: Word)
      requires Valid() && t == Raw(w, inc)
      modifies this`last, this`rdaddr, rtbl
      ensures Valid() && val == DataValue(old(State()), t) && State() == AfterData(old(State()), t)
    {
      val := w;
      rtbl[rdaddr] := val;
      rdaddr := (rdaddr + 1) % 1024;
      MoveOn(inc);
    }

    /** A data codeword: a table reference at distance 1, 2 to 9 or 10 to 521, or a raw word. */
    method TakeData(ghost t: Token, ghost after: seq<char>) returns (val: Word)
      requires Valid() && WellFormed(t) && IsData(t)
      requires buf[0] == CharEnc(Code(t)[0]) && incoming == Chars(Code(t))[1..] + after
      modifies this`last, this`rdaddr, this`incoming, buf, rtbl
      ensures Valid() && incoming == after
      ensures val == DataValue(old(State()), t) && State() == AfterData(old(State()), t)
    {
      ghost var code := Code(t);
      ParseInvertsCode(t);
      AlphabetRoundTrip(code[0], buf[0]);
      var sixbits := CharDec(buf[0]);
      var inc := sixbits % 2 == 1;
      val := 0;
      if sixbits / 2 == 3 {
        val := TableWord(t, 1, inc);
      } else if 16 <= sixbits < 32 {
        var arg := TakeDigits(2, code, after);
        val := TableWord(t, 64 * (sixbits / 2 % 8) + arg + 2 + 8, inc);
      } else if 32 <= sixbits < 48 {
        val := TableWord(t, sixbits / 2 % 8 + 2, inc);
      } else if 56 <= sixbits {
        var arg := TakeDigits(6, code, after);
        val := RawWord(t, 1073741824 * (sixbits / 2 % 4) + arg, inc);
      }
    }

    /** Everything before the data codeword; its first character is left in the buffer. */
    method SkipToData(ghost r: Reply, ghost rest: seq<char>) returns (err: bool)
      requires Valid() && ReplyStops(r) && incoming == WireReply(r) + rest
      modifies this`last, this`addrSet, this`interrupt, this`busErr, this`incoming, buf
      ensures Valid() && err == IsFault(r.data) && State() == AfterSkips(old(State()), r.skip)
      ensures interrupt == (old(interrupt) || Rings(r.skip)) && busErr == (old(busErr) || err)
      ensures err ==> incoming == rest
      ensures !err ==> buf[0] == CharEnc(Code(r.data)[0]) && incoming == Chars(Code(r.data))[1..] + rest
    {
      ghost var h := State();
      var found := false;
      ghost var k := 0;
      err := false;
      assert r.skip[..0] == [] && r.skip[0..] == r.skip;
      while !found && !err
        invariant Valid() && HostValid(h) && 0 <= k <= |r.skip|
        invariant State() == AfterSkips(h, r.skip[..k]) && busErr == (old(busErr) || err)
        invariant interrupt == (old(interrupt) || Rings(r.skip[..k]))
        invariant !found && !err ==> incoming == Pending(r, k, rest)
        invariant found || err ==> k == |r.skip|
        invariant err ==> IsFault(r.data) && incoming == rest
        invariant found ==> && IsData(r.data) && buf[0] == CharEnc(Code(r.data)[0])
                            && incoming == Chars(Code(r.data))[1..] + rest
        decreases if found || err then 0 else |r.skip| - k + 1
      {
        if k < |r.skip| {
          PendingSkip(r, k, rest, h);
          RingsNext(r.skip, k);
        } else {
          PendingData(r, rest);
        }
        found, err := Take(if k < |r.skip| then r.skip[k] else r.data,
                           if k < |r.skip| then Pending(r, k + 1, rest) else rest);
        k := if k < |r.skip| then k + 1 else k;
      }
      assert r.skip[..|r.skip|] == r.skip;
    }

    /** Wait for the next data codeword, taking note of everything before it. */
    method ReadWord(ghost r: Reply, ghost rest: seq<char>) returns (err: bool, val: Word)
      requires Valid() && ReplyStops(r) && incoming == WireReply(r) + rest
      modifies this`last, this`addrSet, this`rdaddr, this`interrupt, this`busErr, this`incoming, buf, rtbl
      ensures Valid() && err == IsFault(r.data) && incoming == rest
      ensures err ==> State() == AfterSkips(old(State()), r.skip)
      ensures !err ==> val == ReplyWord(old(State()), r) && State() == AfterReply(old(State()), r)
      ensures interrupt == (old(interrupt) || Rings(r.skip)) && busErr == (old(busErr) || err)
    {
      val := 0;
      err := SkipToData(r, rest);
      if !err {
        val := TakeData(r.data, rest);
      }
    }

    /** One character, and the rest of its codeword unless it is data. */
    method Take(ghost t: Token, ghost after: seq<char>) returns (found: bool, err: bool)
      requires Valid() && WellFormed(t) && incoming == Wire(t) + after
      modifies this`last, this`addrSet, this`interrupt, this`busErr, this`incoming, buf
      ensures Valid() && err == IsFault(t) && found == IsData(t)
      ensures State() == if found then old(State()) else AfterSkip(old(State()), t)
      ensures interrupt == (old(interrupt) || t.Interrupt?) && busErr == (old(busErr) || err)
      ensures found ==> buf[0] == CharEnc(Code(t)[0]) && incoming == Chars(Code(t))[1..] + after
      ensures !found ==> incoming == after
    {
      ghost var all := incoming;
      var nr := ReadOne();
      assert all[0] == Wire(t)[0] && all[1..] == Wire(t)[1..] + after;
      found, err := false, false;
      if !t.Stray? {
        AlphabetRoundTrip(Code(t)[0], all[0]);
      }
      if nr >= 1 {
        found, err := TakeHead(t, after);
      }
    }

    /** Request n words: never more than 1024 may be outstanding. */
    method ReadCmd(inc: bool, n: nat, ptr: nat) returns (next: nat)
      requires 1 <= n < 520 && asked + n <= got + MAXRDLEN && ptr + 2 <= buf.Length
      modifies buf, this`asked
      ensures asked == old(asked) + n
      ensures next == ptr + |ReadCode(inc, n)| <= ptr + 2
      ensures buf[..next] == old(buf[..ptr]) + Chars(ReadCode(inc, n))
    {
      ReadCodeAsWritten(inc, n);
      var p := if inc then 1 else 0;
      if n <= 8 {
        next := PutCode(ptr, [0x20 + (n - 1) % 8 * 2 + p]);
      } else {
        next := PutCode(ptr, [0x30 + (n - 9) / 64 % 8 * 2 + p, (n - 9) % 64]);
      }
      asked := asked + n;
    }

    /** The inner request loop of readv. */
    method Issue(inc: bool, len: nat, cmdrd: nat, nread: nat, start: nat) returns (ptr: nat, now: nat)
      requires nread <= cmdrd < len && cmdrd - nread < MAXRDLEN && asked == got + (cmdrd - nread)
      requires cmdrd == nread || cmdrd == nread + 512
      requires start + 4 <= buf.Length
      modifies buf, this`asked
      ensures now == Asking(len, nread) && asked == got + (now - nread)
      ensures start <= ptr <= start + 4 && ptr <= buf.Length
      ensures buf[..ptr] == old(buf[..start]) + Batch(inc, len - cmdrd, cmdrd - nread)
    {
      ptr, now := start, cmdrd;
      var more := true;
      ghost var goal := buf[..start] + Batch(inc, len - cmdrd, cmdrd - nread);
      while more
        invariant cmdrd <= now <= len && now - nread <= MAXRDLEN && asked == got + (now - nread)
        invariant more ==> now < len && now - nread < MAXRDLEN
        invariant !more ==> now > cmdrd && (now == len || now == nread + MAXRDLEN)
        invariant now == nread || now == nread + 512 || !more
        invariant start <= ptr <= start + (if now == cmdrd then 0 else if more then 2 else 4)
        invariant goal == buf[..ptr] + if more then Batch(inc, len - now, now - nread) else []
        decreases len - now, more
      {
        var nrd := len - now;
        if nrd > 512 {
          nrd := 512;
        }
        if now - nread + nrd > MAXRDLEN {
          nrd := MAXRDLEN - (now - nread);
        }
        BatchStep(inc, len - now, now - nread, nrd, buf[..ptr]);
        ptr := ReadCmd(inc, nrd, ptr);
        now := now + nrd;
        more := now - nread < MAXRDLEN && now < len;
      }
    }

    lemma BatchStep(inc: bool, left: nat, outstanding: nat, n: nat, pre: seq<char>)
      requires left >= 1 && outstanding < 1024 && n == BlockSize(left, outstanding)
      ensures pre + Batch(inc, left, outstanding)
              == pre + Chars(ReadCode(inc, n))
                 + if left > n && outstanding + n < 1024 then Batch(inc, left - n, outstanding + n) else []
    {
    }

    /** The first k replies have been consumed and their words stored. */
    ghost predicate Progress(out: array<Word>, k: nat, h: Host, rs: seq<Reply>, rest: seq<char>)
      reads this`wraddr, this`rdaddr, this`buf, this`addrSet, this`last, this`wrloaded, this`incoming
      reads wtbl, rtbl, out
    {
      && Valid() && HostValid(h) && DataUpTo(rs, k) && k <= out.Length
      && State() == HostAfter(h, rs, k)
      && out[..k] == WordsUpTo(h, rs, k)
      && incoming == Coming(rs, k, rest)
    }

    lemma StartProgress(out: array<Word>, h: Host, rs: seq<Reply>, rest: seq<char>)
      requires Valid() && State() == h && (forall r <- rs :: ReplyStops(r))
      requires incoming == WireReplies(rs) + rest
      ensures Progress(out, 0, h, rs, rest)
    {
      assert rs[..0] == [] && rs[0..] == rs && out[..0] == [];
    }

    lemma Stored(out: array<Word>, k: nat, words: seq<Word>, val: Word)
      requires k < out.Length && out[..k] == words && out[k] == val
      ensures out[..k + 1] == words + [val]
    {
    }

    /** One more word, which must have been asked for. */
    method CollectOne(out: array<Word>, k: nat, ghost h: Host, ghost rs: seq<Reply>, ghost rest: seq<char>)
      returns (err: bool)
      requires Progress(out, k, h, rs, rest) && k < |rs| && k < out.Length && got < asked
      requires out != wtbl && out != rtbl
      modifies this`last, this`addrSet, this`rdaddr, this`interrupt, this`busErr, this`incoming,
               this`got, buf, rtbl, out
      ensures Valid() && err == IsFault(rs[k].data) && got == old(got) + 1
      ensures if err then Stopped(out, k, h, rs, rest) else Progress(out, k + 1, h, rs, rest)
      ensures interrupt == (old(interrupt) || Rings(rs[k].skip)) && busErr == (old(busErr) || err)
      ensures forall i :: k < i < out.Length ==> out[i] == old(out[i])
    {
      ComingStep(h, rs, k, rest);
      var val;
      err, val := ReadWord(rs[k], WireReplies(rs[k + 1..]) + rest);
      got := got + 1;
      if !err {
        Keep(out, k, val, h, rs, rest);
      }
    }

    /** The word just read goes into its place. */
    method Keep(out: array<Word>, k: nat, val: Word, ghost h: Host, ghost rs: seq<Reply>, ghost rest: seq<char>)
      requires Valid() && out != wtbl && out != rtbl && HostValid(h) && k < out.Length && DataUpTo(rs, k + 1)
      requires out[..k] == WordsUpTo(h, rs, k) && incoming == Coming(rs, k + 1, rest)
      requires val == ReplyWord(HostAfter(h, rs, k), rs[k]) && State() == AfterReply(HostAfter(h, rs, k), rs[k])
      modifies out
      ensures Progress(out, k + 1, h, rs, rest) && forall i :: k < i < out.Length ==> out[i] == old(out[i])
    {
      DataStep(h, rs, k);
      out[k] := val;
      Stored(out, k, WordsUpTo(h, rs, k), val);
    }

    /** Both flags, after the first k replies, and the next one too when it was an error. */
    ghost predicate Noted(rang: bool, erred: bool, rs: seq<Reply>, k: nat, err: bool)
      reads this`interrupt, this`busErr
    {
      var end := if err then k + 1 else k;
      end <= |rs| && interrupt == (rang || Rung(rs, end)) && busErr == (erred || err)
    }

    /** How far a call has come, and whether an error has ended it. */
    ghost predicate Stage(err: bool, k: nat, out: array<Word>, h: Host, rs: seq<Reply>, rest: seq<char>, rang: bool, erred: bool)
      reads this`wraddr, this`rdaddr, this`buf, this`addrSet, this`last, this`wrloaded, this`incoming
      reads this`interrupt, this`busErr, wtbl, rtbl, out
    {
      && Noted(rang, erred, rs, k, err)
      && if err then Stopped(out, k, h, rs, rest) else Progress(out, k, h, rs, rest)
    }

    method StageOne(out: array<Word>, k: nat, ghost h: Host, ghost rs: seq<Reply>, ghost rest: seq<char>,
                    ghost rang: bool, ghost erred: bool) returns (err: bool)
      requires Stage(false, k, out, h, rs, rest, rang, erred) && k < |rs| && k < out.Length && got < asked
      requires out != wtbl && out != rtbl
      modifies this`last, this`addrSet, this`rdaddr, this`interrupt, this`busErr, this`incoming,
               this`got, buf, rtbl, out
      ensures Stage(err, if err then k else k + 1, out, h, rs, rest, rang, erred) && got == old(got) + 1
    {
      err := CollectOne(out, k, h, rs, rest);
    }

    /** Collect words until there are `target` of them, or the bus reports an error. */
    method Collect(out: array<Word>, nread: nat, target: nat, ghost n: nat, ghost h: Host, ghost rs: seq<Reply>,
                   ghost rest: seq<char>, ghost rang: bool, ghost erred: bool)
      returns (err: bool, now: nat)
      requires Stage(false, nread, out, h, rs, rest, rang, erred) && out != wtbl && out != rtbl
      requires nread <= target <= n <= out.Length && Answers(rs, n)
      requires got + (target - nread) <= asked
      modifies this`last, this`addrSet, this`rdaddr, this`interrupt, this`busErr, this`incoming,
               this`got, buf, rtbl, out
      ensures Stage(err, now, out, h, rs, rest, rang, erred) && nread <= now <= target && got >= old(got)
      ensures !err ==> now == target && got == old(got) + (now - nread)
    {
      now, err := nread, false;
      while now < target && !err
        invariant Stage(err, now, out, h, rs, rest, rang, erred) && nread <= now <= target && got >= old(got)
        invariant !err ==> got == old(got) + (now - nread)
        decreases target - now, !err
      {
        AnswersLast(rs, n, now);
        err := StageOne(out, now, h, rs, rest, rang, erred);
        now := if err then now else now + 1;
      }
    }

    /** The k-th reply was an error codeword; the words before it are stored, and it is consumed. */
    ghost predicate Stopped(out: array<Word>, k: nat, h: Host, rs: seq<Reply>, rest: seq<char>)
      reads this`wraddr, this`rdaddr, this`buf, this`addrSet, this`last, this`wrloaded, this`incoming
      reads wtbl, rtbl, out
    {
      && Valid() && HostValid(h) && DataUpTo(rs, k) && k < |rs| && IsFault(rs[k].data)
      && k <= out.Length && out[..k] == WordsUpTo(h, rs, k)
      && State() == AfterSkips(HostAfter(h, rs, k), rs[k].skip) && incoming == WireReplies(rs[k + 1..]) + rest
    }

    /** A line of requests; `goal` is what will have been sent at the end of the call. */
    method Request(inc: bool, len: nat, cmdrd: nat, nread: nat, start: nat, ghost goal: seq<char>)
      returns (asking: nat)
      requires 128 <= buf.Length && start <= 6
      requires nread <= cmdrd < len && asked == got + (cmdrd - nread)
      requires cmdrd == nread || cmdrd == nread + 512
      requires sent + buf[..start] + LinesLeft(inc, len, cmdrd, nread) == goal
      modifies this`asked, this`sent, buf
      ensures asking == Asking(len, nread) && asked == got + (asking - nread)
      ensures sent + TailRequests(inc, len - asking) == goal
    {
      ghost var was, batch := buf[..start], Batch(inc, len - cmdrd, cmdrd - nread);
      var ptr;
      ptr, asking := Issue(inc, len, cmdrd, nread, start);
      ptr := PutNewline(ptr);
      Flush(ptr);
      Fold.Regroup(old(sent), was, batch, ['\n'], TailRequests(inc, len - asking));
    }

    /** Between two lines of requests: asked for up to cmdrd, stored up to now, and the rest of `goal` still to be
        sent. */
    ghost predicate Going(err: bool, cmdrd: nat, now: nat, inc: bool, len: nat, out: array<Word>, goal: seq<char>,
                          h: Host, rs: seq<Reply>, rest: seq<char>, rang: bool, erred: bool)
      reads this`wraddr, this`rdaddr, this`buf, this`addrSet, this`last, this`wrloaded, this`incoming
      reads this`interrupt, this`busErr, this`asked, this`got, this`sent, wtbl, rtbl, out
    {
      && Stage(err, now, out, h, rs, rest, rang, erred) && now <= cmdrd <= len
      && (!err ==> asked == got + (cmdrd - now) && cmdrd - now <= 512 && (cmdrd < len ==> cmdrd == now + 512))
      && sent + TailRequests(inc, len - cmdrd) == goal
    }

    /** One turn of readv's outer loop: a line of requests, then words until half the window is
        free. */
    method Turn(inc: bool, len: nat, cmdrd: nat, nread: nat, start: nat, out: array<Word>, ghost goal: seq<char>,
                ghost h: Host, ghost rs: seq<Reply>, ghost rest: seq<char>, ghost rang: bool, ghost erred: bool)
      returns (err: bool, asking: nat, now: nat)
      requires Stage(false, nread, out, h, rs, rest, rang, erred) && out != wtbl && out != rtbl && Answers(rs, len)
      requires nread <= cmdrd < len <= out.Length && asked == got + (cmdrd - nread)
      requires cmdrd == nread || cmdrd == nread + 512
      requires start <= 6 && sent + buf[..start] + LinesLeft(inc, len, cmdrd, nread) == goal
      modifies this`last, this`addrSet, this`rdaddr, this`interrupt, this`busErr, this`incoming,
               this`got, this`asked, this`sent, buf, rtbl, out
      ensures Going(err, asking, now, inc, len, out, goal, h, rs, rest, rang, erred) && asking > cmdrd
    {
      asking := Request(inc, len, cmdrd, nread, start, goal);
      err, now := CollectHalf(len, asking, nread, out, h, rs, rest, rang, erred);
    }

    method CollectHalf(len: nat, asking: nat, nread: nat, out: array<Word>,
                       ghost h: Host, ghost rs: seq<Reply>, ghost rest: seq<char>, ghost rang: bool, ghost erred: bool)
      returns (err: bool, now: nat)
      requires Stage(false, nread, out, h, rs, rest, rang, erred) && out != wtbl && out != rtbl && Answers(rs, len)
      requires nread <= asking == Asking(len, nread) <= len <= out.Length && asked == got + (asking - nread)
      modifies this`last, this`addrSet, this`rdaddr, this`interrupt, this`busErr, this`incoming,
               this`got, buf, rtbl, out
      ensures Stage(err, now, out, h, rs, rest, rang, erred) && now <= asking
      ensures !err ==> asked == got + (asking - now) && asking - now <= 512 && (asking < len ==> asking == now + 512)
    {
      var target := if asking - nread > 512 then asking - 512 else nread;
      err, now := Collect(out, nread, target, len, h, rs, rest, rang, erred);
    }

    /** The first turn, with the address in front of its requests. */
    method Opening(inc: bool, len: nat, first: nat, out: array<Word>, ghost code: seq<char>, ghost goal: seq<char>,
                   ghost h: Host, ghost rs: seq<Reply>, ghost rest: seq<char>, ghost rang: bool, ghost erred: bool)
      returns (err: bool, asking: nat, now: nat)
      requires Stage(false, 0, out, h, rs, rest, rang, erred) && out != wtbl && out != rtbl && Answers(rs, len)
      requires 1 <= len <= out.Length && asked == got && first <= 6 && buf[..first] == code
      requires sent + (code + Requests(inc, len)) == goal
      modifies this`last, this`addrSet, this`rdaddr, this`interrupt, this`busErr, this`incoming,
               this`got, this`asked, this`sent, buf, rtbl, out
      ensures Going(err, asking, now, inc, len, out, goal, h, rs, rest, rang, erred)
    {
      FirstGoal(sent, code, inc, len);
      err, asking, now := Turn(inc, len, 0, 0, first, out, goal, h, rs, rest, rang, erred);
    }

    /** A turn after the first, with half the window outstanding. */
    method Later(inc: bool, len: nat, cmdrd: nat, nread: nat, out: array<Word>, ghost goal: seq<char>,
                 ghost h: Host, ghost rs: seq<Reply>, ghost rest: seq<char>, ghost rang: bool, ghost erred: bool)
      returns (err: bool, asking: nat, now: nat)
      requires Going(false, cmdrd, nread, inc, len, out, goal, h, rs, rest, rang, erred) && cmdrd < len <= out.Length
      requires out != wtbl && out != rtbl && Answers(rs, len)
      modifies this`last, this`addrSet, this`rdaddr, this`interrupt, this`busErr, this`incoming,
               this`got, this`asked, this`sent, buf, rtbl, out
      ensures Going(err, asking, now, inc, len, out, goal, h, rs, rest, rang, erred) && asking > cmdrd
    {
      LaterGoal(sent, buf[..0], inc, len, cmdrd, nread);
      err, asking, now := Turn(inc, len, cmdrd, nread, 0, out, goal, h, rs, rest, rang, erred);
    }

    /** The window loop of readv: all requests out, all but the last 512 words in. */
    method Window(inc: bool, len: nat, first: nat, out: array<Word>, ghost code: seq<char>, ghost goal: seq<char>,
                  ghost h: Host, ghost rs: seq<Reply>, ghost rest: seq<char>, ghost rang: bool, ghost erred: bool)
      returns (err: bool, cmdrd: nat, now: nat)
      requires Stage(false, 0, out, h, rs, rest, rang, erred) && out != wtbl && out != rtbl && Answers(rs, len)
      requires 1 <= len <= out.Length && asked == got && first <= 6 && buf[..first] == code
      requires sent + (code + Requests(inc, len)) == goal
      modifies this`last, this`addrSet, this`rdaddr, this`interrupt, this`busErr, this`incoming,
               this`got, this`asked, this`sent, buf, rtbl, out
      ensures Going(err, cmdrd, now, inc, len, out, goal, h, rs, rest, rang, erred) && (!err ==> cmdrd == len)
    {
      err, cmdrd, now := Opening(inc, len, first, out, code, goal, h, rs, rest, rang, erred);
      while cmdrd < len && !err
        invariant Going(err, cmdrd, now, inc, len, out, goal, h, rs, rest, rang, erred)
        decreases len - cmdrd, !err
      {
        err, cmdrd, now := Later(inc, len, cmdrd, now, out, goal, h, rs, rest, rang, erred);
      }
    }

    /** Everything readv does once the address is encoded. */
    method ReadAll(inc: bool, len: nat, first: nat, out: array<Word>, ghost code: seq<char>, ghost goal: seq<char>,
                   ghost h: Host, ghost rs: seq<Reply>, ghost rest: seq<char>, ghost rang: bool, ghost erred: bool)
      returns (err: bool, nread: nat)
      requires Stage(false, 0, out, h, rs, rest, rang, erred) && out != wtbl && out != rtbl && Answers(rs, len)
      requires 1 <= len <= out.Length && asked == got && first <= 6 && buf[..first] == code
      requires sent + (code + Requests(inc, len)) == goal
      modifies this`last, this`addrSet, this`rdaddr, this`interrupt, this`busErr, this`incoming,
               this`got, this`asked, this`sent, buf, rtbl, out
      ensures Stage(err, nread, out, h, rs, rest, rang, erred) && (!err ==> nread == len && asked == got)
      ensures SentSome(sent, goal, err)
    {
      err, nread := AskAll(inc, len, first, out, code, goal, h, rs, rest, rang, erred);
      if !err {
        err, nread := Drain(len, nread, out, h, rs, rest, rang, erred);
      }
    }

    method AskAll(inc: bool, len: nat, first: nat, out: array<Word>, ghost code: seq<char>, ghost goal: seq<char>,
                  ghost h: Host, ghost rs: seq<Reply>, ghost rest: seq<char>, ghost rang: bool, ghost erred: bool)
      returns (err: bool, now: nat)
      requires Stage(false, 0, out, h, rs, rest, rang, erred) && out != wtbl && out != rtbl && Answers(rs, len)
      requires 1 <= len <= out.Length && asked == got && first <= 6 && buf[..first] == code
      requires sent + (code + Requests(inc, len)) == goal
      modifies this`last, this`addrSet, this`rdaddr, this`interrupt, this`busErr, this`incoming,
               this`got, this`asked, this`sent, buf, rtbl, out
      ensures Stage(err, now, out, h, rs, rest, rang, erred) && SentSome(sent, goal, err) && SentSome(sent, goal, true)
      ensures !err ==> now <= len && asked == got + (len - now)
    {
      var cmdrd;
      err, cmdrd, now := Window(inc, len, first, out, code, goal, h, rs, rest, rang, erred);
      SentUpTo(inc, len - cmdrd, goal, err);
    }

    /** The words still to come once everything has been asked for. */
    method Drain(len: nat, nread: nat, out: array<Word>,
                 ghost h: Host, ghost rs: seq<Reply>, ghost rest: seq<char>, ghost rang: bool, ghost erred: bool)
      returns (err: bool, now: nat)
      requires Stage(false, nread, out, h, rs, rest, rang, erred) && out != wtbl && out != rtbl && Answers(rs, len)
      requires nread <= len <= out.Length && asked == got + (len - nread)
      modifies this`last, this`addrSet, this`rdaddr, this`interrupt, this`busErr, this`incoming,
               this`got, buf, rtbl, out
      ensures Stage(err, now, out, h, rs, rest, rang, erred) && (!err ==> now == len && asked == got)
    {
      err, now := Collect(out, nread, len, len, h, rs, rest, rang, erred);
    }

    /** The words and the state a complete reply stream leaves, and what was sent for it. */
    ghost predicate Complete(len: nat, out: array<Word>, h: Host, rs: seq<Reply>, rest: seq<char>)
      reads this`wraddr, this`rdaddr, this`buf, this`addrSet, this`last, this`wrloaded, this`incoming
      reads this`asked, this`got, wtbl, rtbl, out
    {
      && Valid() && HostValid(h) && DataUpTo(rs, len) && |rs| == len <= out.Length
      && out[..len] == TtySession.ReplyWords(h, rs)
      && State() == TtySession.AfterReplies(h, rs) && incoming == rest && asked == got
    }

    /** Everything a read call does with a good address and at least one word to fetch. */
    method ReadAligned(a: Word, inc: bool, len: nat, ptr: nat, out: array<Word>, ghost code: seq<char>, ghost goal: seq<char>,
                       ghost h: Host, ghost rs: seq<Reply>, ghost rest: seq<char>, ghost rang: bool, ghost erred: bool)
      returns (res: ReadResult)
      requires Stage(false, 0, out, h, rs, rest, rang, erred) && out != wtbl && out != rtbl && Answers(rs, len)
      requires 1 <= len <= out.Length && asked == got && ptr <= 6 && buf[..ptr] == code
      requires sent + (code + Requests(inc, len)) == goal
      modifies this`last, this`addrSet, this`rdaddr, this`interrupt, this`busErr, this`incoming,
               this`got, this`asked, this`sent, buf, rtbl, out
      ensures NotedAll(rang, erred, rs)
      ensures SentSome(sent, goal, IsFault(rs[|rs| - 1].data))
      ensures if IsFault(rs[|rs| - 1].data) then
                Stopped(out, |rs| - 1, h, rs, rest) && res == BusErr(Along(a, inc, |rs| - 1))
              else
                Complete(len, out, h, rs, rest) && res == if last == Along(a, inc, len) then Done else WrongAddress
    {
      var err, nread := ReadAll(inc, len, ptr, out, code, goal, h, rs, rest, rang, erred);
      if err {
        StoppedLast(out, nread, h, rs, rest, len, rang, erred);
        return BusErr(Along(a, inc, nread));
      }
      AllIn(out, h, rs, rest, len, rang, erred);
      return if last == Along(a, inc, len) then Done else WrongAddress;
    }

    /** Both flags, after all replies. */
    ghost predicate NotedAll(rang: bool, erred: bool, rs: seq<Reply>)
      requires rs != []
      reads this`interrupt, this`busErr
    {
      interrupt == (rang || Rung(rs, |rs|)) && busErr == (erred || IsFault(rs[|rs| - 1].data))
    }

    lemma SentUpTo(inc: bool, left: nat, goal: seq<char>, err: bool)
      requires sent + TailRequests(inc, left) == goal && (!err ==> left == 0)
      ensures SentSome(sent, goal, err) && SentSome(sent, goal, true)
    {
      TailDone(inc, sent);
    }

    lemma StoppedLast(out: array<Word>, k: nat, h: Host, rs: seq<Reply>, rest: seq<char>, n: nat, rang: bool, erred: bool)
      requires Stage(true, k, out, h, rs, rest, rang, erred) && Answers(rs, n)
      ensures k == |rs| - 1 && NotedAll(rang, erred, rs) && Stopped(out, k, h, rs, rest)
    {
    }

    lemma AllIn(out: array<Word>, h: Host, rs: seq<Reply>, rest: seq<char>, n: nat, rang: bool, erred: bool)
      requires Stage(false, n, out, h, rs, rest, rang, erred) && Answers(rs, n) && asked == got && n > 0
      ensures Complete(n, out, h, rs, rest) && NotedAll(rang, erred, rs) && !IsFault(rs[|rs| - 1].data)
    {
      FullStream(h, rs, n, rest);
      assert IsData(rs[n - 1].data);
    }

    /** poll, bus_err, clear and reset_err. */
    method Poll() returns (b: bool)
      ensures b == interrupt
    {
      return interrupt;
    }

    method BusErrSeen() returns (b: bool)
      ensures b == busErr
    {
      return busErr;
    }

    method Clear()
      modifies this`interrupt
      ensures !interrupt
    {
      interrupt := false;
    }

    method ResetErr()
      modifies this`busErr
      ensures !busErr
    {
      busErr := false;
    }

    /** readio, readz and readi.  `rs` is what the device will answer and `rest` what follows it. */
    method ReadV(a: Word, inc: bool, len: int, out: array<Word>, ghost rs: seq<Reply>, ghost rest: seq<char>)
      returns (res: ReadResult)
      requires Valid() && out != wtbl && out != rtbl && asked == got
      requires len > 0 ==> out.Length == len
      requires len > 0 && a % 4 == 0 ==> Answers(rs, len) && incoming == WireReplies(rs) + rest
      modifies this`last, this`addrSet, this`rdaddr, this`interrupt, this`busErr, this`incoming,
               this`got, this`asked, this`sent, buf, rtbl, out
      ensures Valid()
      ensures len <= 0 ==> res == Done
      ensures len > 0 && a % 4 != 0 ==> res == BusErr(a)
      ensures len <= 0 || a % 4 != 0 ==>
                && State() == old(State()) && sent == old(sent) && incoming == old(incoming) && asked == old(asked)
                && interrupt == old(interrupt) && busErr == old(busErr) && out[..] == old(out[..])
      ensures len > 0 && a % 4 == 0 ==>
                && NotedAll(old(interrupt), old(busErr), rs)
                && SentSome(sent, old(sent) + ReadCallSends(old(State()), a, inc, len), IsFault(rs[|rs| - 1].data))
      ensures len > 0 && a % 4 == 0 && IsFault(rs[|rs| - 1].data) ==>
                && res == BusErr(Along(a, inc, |rs| - 1))
                && Stopped(out, |rs| - 1, TtySession.ForRead(old(State()), a), rs, rest)
      ensures len > 0 && a % 4 == 0 && !IsFault(rs[|rs| - 1].data) ==>
                && Complete(len, out, TtySession.ForRead(old(State()), a), rs, rest)
                && res == if last == Along(a, inc, len) then Done else WrongAddress
    {
      if len <= 0 {
        return Done;
      }
      ghost var h := State();
      var bad, ptr := EncodeAddress(a);
      if bad {
        return BusErr(a);
      }
      AddressCodeFits(h.addrSet, h.last, a);
      AddressCodeEmpty(h.addrSet, h.last, a);
      ghost var h1 := TtySession.ForRead(h, a);
      StartProgress(out, h1, rs, rest);
      ghost var code := Chars(AddressCode(h.addrSet, h.last, a));
      res := ReadAligned(a, inc, len, ptr, out, code, sent + (code + Requests(inc, len)), h1, rs, rest,
                         interrupt, busErr);
    }
  }
}
