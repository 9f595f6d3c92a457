/** Reads over the debug bus: the request codewords (sw/host/ttybus.cpp:474-543) as the device
    executes them, and the compressed replies (rtl/wbubus/wbucompress.v) as the host expands them
    (sw/host/ttybus.cpp:603-732). */
module TtyRead {
  import opened SixBit
  import opened WbuDevice
  import opened TtyCode
  import Arith

  // ---------------------------------------------------------------------------------------------
  // Requests

  /** One request for n words. */
  function ReadCode(inc: bool, n: nat): (c: seq<Six>)
    requires 1 <= n < 520
  {
    if n <= 8 then [32 + 2 * (n - 1) + Bit(inc)]
    else [48 + 2 * ((n - 9) / 64) + Bit(inc), (n - 9) % 64]
  }

  /** A request decodes to itself with one exception: eight words without increment is the very
      character that ends a write, and the device reads nothing. */
  lemma ReadCodeDecodes(inc: bool, n: nat, c: seq<Six>)
    requires 1 <= n < 520 && c == ReadCode(inc, n)
    ensures Complete(c) && 32 <= c[0]
    ensures Decode(c) == ReadWords(n, inc) <==> inc || n != 8
    ensures !inc && n == 8 ==> Decode(c) == EndOfWrite
  {
    if n > 8 {
      assert c[1..] == [c[1]];
      assert Val(c[1..]) == c[1] by { assert c[1..][..0] == []; }
      assert c[0] / 2 % 8 == (n - 9) / 64;
    } else {
      assert c[0] / 2 % 8 == n - 1;
    }
  }

  /** How many words the device reads for one request. */
  function Served(inc: bool, n: nat): nat {
    if !inc && n == 8 then 0 else n
  }

  function AfterReads(d: Device, inc: bool, n: nat): Device {
    if n == 0 then d else
    d.(newAddr := false,
       waddr := (d.waddr + if inc then n else 0) % WORD_LIMIT,
       events := d.events + (if d.newAddr then [EchoEv(BusAddr(d.waddr))] else [])
                 + Reads(d.waddr, inc, n))
  }

  lemma ReadStep(d: Device, inc: bool, n: nat)
    requires Quiet(d) && 1 <= n < 520
    ensures Run(d, Chars(ReadCode(inc, n))) == AfterReads(d, inc, Served(inc, n))
    ensures Quiet(AfterReads(d, inc, Served(inc, n)))
  {
    var c := ReadCode(inc, n);
    ReadCodeDecodes(inc, n, c);
    RunCodeword(d, c);
    assert d.(partial := [], lastWrite := false, writing := false) == d;
  }

  lemma AfterReadsTwice(d: Device, inc: bool, n: nat, m: nat)
    requires 0 <= d.waddr < WORD_LIMIT
    ensures AfterReads(AfterReads(d, inc, n), inc, m) == AfterReads(d, inc, n + m)
  {
    if n > 0 && m > 0 {
      var w1 := (d.waddr + if inc then n else 0) % WORD_LIMIT;
      ReadsConcat(d.waddr, w1, inc, n, m);
      var echo := if d.newAddr then [EchoEv(BusAddr(d.waddr))] else [];
      assert d.events + echo + Reads(d.waddr, inc, n) + Reads(w1, inc, m)
          == d.events + echo + Reads(d.waddr, inc, n + m);
      WrapTwice(d.waddr, if inc then n else 0, if inc then m else 0);
    }
  }

  lemma WrapTwice(a: int, n: nat, m: nat)
    ensures ((a + n) % WORD_LIMIT + m) % WORD_LIMIT == (a + (n + m)) % WORD_LIMIT
  {
  }

  lemma ReadsConcat(w: int, w1: int, inc: bool, n: nat, m: nat)
    requires w1 == (w + if inc then n else 0) % WORD_LIMIT
    ensures Reads(w, inc, n) + Reads(w1, inc, m) == Reads(w, inc, n + m)
  {
    var l, r := Reads(w, inc, n) + Reads(w1, inc, m), Reads(w, inc, n + m);
    forall i | 0 <= i < n + m ensures l[i] == r[i] {
      if i >= n {
        WrapAddr(w + if inc then n else 0, if inc then i - n else 0);
      }
    }
  }

  lemma WrapAddr(a: int, i: nat)
    ensures BusAddr(a % WORD_LIMIT + i) == BusAddr(a + i)
  {
    Arith.ModMultiple(a % WORD_LIMIT + i, 1073741824, 4 * (a / WORD_LIMIT));
  }

  /** The requests of one readv call after its first write to the line, one 512-word block per line. */
  function TailRequests(inc: bool, n: nat): (s: seq<char>) {
    if n == 0 then [] else
    var k := if n > 512 then 512 else n;
    Chars(ReadCode(inc, k)) + ['\n'] + TailRequests(inc, n - k)
  }

  /** The first line opens the window with up to two blocks. */
  function HeadRequests(inc: bool, n: nat): (s: seq<char>)
    requires 1 <= n
  {
    if n <= 512 then Chars(ReadCode(inc, n))
    else Chars(ReadCode(inc, 512)) + Chars(ReadCode(inc, if n > 1024 then 512 else n - 512))
  }

  function Requests(inc: bool, n: nat): (s: seq<char>)
    requires 1 <= n
  {
    HeadRequests(inc, n) + ['\n'] + TailRequests(inc, if n > 1024 then n - 1024 else 0)
  }

  /** Only a final block of exactly eight words goes unserved. */
  function ServedTotal(inc: bool, n: nat): nat {
    if !inc && n % 512 == 8 then n - 8 else n
  }

  lemma ServedSplit(inc: bool, k: nat, m: nat)
    requires k == 512 || k == 1024
    ensures ServedTotal(inc, k + m) == k + ServedTotal(inc, m)
  {
  }

  lemma AfterReadsKeeps(d: Device, inc: bool, n: nat)
    requires Quiet(d) && 0 <= d.waddr < WORD_LIMIT
    ensures var d' := AfterReads(d, inc, n); Quiet(d') && 0 <= d'.waddr < WORD_LIMIT
  {
  }

  lemma NewlineQuiet(d: Device, s: seq<char>, d': Device)
    requires Run(d, s) == d' && Quiet(d')
    ensures Run(d, s + ['\n']) == d'
  {
    RunConcat(d, s, ['\n']);
    RunNewline(d');
    assert d'.(partial := [], lastWrite := false, writing := false) == d';
  }

  lemma {:induction false} TailRuns(d: Device, inc: bool, n: nat)
    requires Quiet(d) && 0 <= d.waddr < WORD_LIMIT
    ensures Run(d, TailRequests(inc, n)) == AfterReads(d, inc, ServedTotal(inc, n))
    decreases n
  {
    if n > 0 {
      var k := if n > 512 then 512 else n;
      var d1 := AfterReads(d, inc, Served(inc, k));
      ReadStep(d, inc, k);
      NewlineQuiet(d, Chars(ReadCode(inc, k)), d1);
      AfterReadsKeeps(d, inc, Served(inc, k));
      TailRuns(d1, inc, n - k);
      RunConcat(d, Chars(ReadCode(inc, k)) + ['\n'], TailRequests(inc, n - k));
      AfterReadsTwice(d, inc, Served(inc, k), ServedTotal(inc, n - k));
      if k == 512 { ServedSplit(inc, 512, n - 512); }
    }
  }

  lemma TwoRuns(d: Device, s: seq<char>, t: seq<char>, d1: Device, d2: Device)
    requires Run(d, s) == d1 && Run(d1, t) == d2
    ensures Run(d, s + t) == d2
  {
    RunConcat(d, s, t);
  }

  lemma TwoReads(d: Device, inc: bool, k: nat, m: nat)
    requires Quiet(d) && 0 <= d.waddr < WORD_LIMIT && 1 <= k < 520 && 1 <= m < 520
    ensures Run(d, Chars(ReadCode(inc, k)) + Chars(ReadCode(inc, m)))
            == AfterReads(d, inc, Served(inc, k) + Served(inc, m))
  {
    var d1 := AfterReads(d, inc, Served(inc, k));
    ReadStep(d, inc, k);
    AfterReadsKeeps(d, inc, Served(inc, k));
    ReadStep(d1, inc, m);
    AfterReadsTwice(d, inc, Served(inc, k), Served(inc, m));
    TwoRuns(d, Chars(ReadCode(inc, k)), Chars(ReadCode(inc, m)), d1, AfterReads(d1, inc, Served(inc, m)));
  }

  lemma HeadRuns(d: Device, inc: bool, n: nat)
    requires Quiet(d) && 0 <= d.waddr < WORD_LIMIT && 1 <= n <= 1024
    ensures Run(d, HeadRequests(inc, n)) == AfterReads(d, inc, ServedTotal(inc, n))
  {
    if n <= 512 {
      ReadStep(d, inc, n);
      ServedBlock(inc, n);
    } else {
      var k := 512;
      TwoReads(d, inc, k, n - k);
      ServedBlock(inc, n - k);
      ServedSplit(inc, k, n - k);
      assert Served(inc, k) == k;
    }
  }

  lemma ServedBlock(inc: bool, n: nat)
    requires n <= 512
    ensures ServedTotal(inc, n) == Served(inc, n)
  {
  }

  lemma HeadLine(d: Device, inc: bool, n: nat)
    requires Quiet(d) && 0 <= d.waddr < WORD_LIMIT && 1 <= n <= 1024
    ensures var d' := AfterReads(d, inc, ServedTotal(inc, n));
            Run(d, HeadRequests(inc, n) + ['\n']) == d' && Quiet(d') && 0 <= d'.waddr < WORD_LIMIT
  {
    HeadRuns(d, inc, n);
    AfterReadsKeeps(d, inc, ServedTotal(inc, n));
    NewlineQuiet(d, HeadRequests(inc, n), AfterReads(d, inc, ServedTotal(inc, n)));
  }

  /** The whole request of one call: the device reads exactly `ServedTotal` words, one after the
      other from where it stands. */
  lemma RequestsRun(d: Device, inc: bool, n: nat)
    requires Quiet(d) && 0 <= d.waddr < WORD_LIMIT && 1 <= n
    ensures Run(d, Requests(inc, n)) == AfterReads(d, inc, ServedTotal(inc, n))
  {
    if n <= 1024 {
      HeadLine(d, inc, n);
      assert TailRequests(inc, 0) == [];
      assert Requests(inc, n) == HeadRequests(inc, n) + ['\n'];
    } else {
      var k, m := 1024, n - 1024;
      HeadLine(d, inc, k);
      TailRuns(AfterReads(d, inc, ServedTotal(inc, k)), inc, m);
      RunConcat(d, HeadRequests(inc, k) + ['\n'], TailRequests(inc, m));
      AfterReadsTwice(d, inc, ServedTotal(inc, k), ServedTotal(inc, m));
      ServedSplit(inc, k, m);
    }
  }

  /** The plain loop of reads. */
  function NaiveReads(a: Word, inc: bool, n: nat): (r: seq<Event>)
    ensures |r| == n
  {
    seq(n, i requires 0 <= i < n => ReadEv(Along(a, inc, i), inc))
  }

  /** readio, readz and readi all come here; a request for no words does nothing. */
  function ReadCallSends(h: Host, a: Word, inc: bool, n: nat): (s: seq<char>)
    requires HostValid(h) && 1 <= n && a % 4 == 0
  {
    Chars(AddressCode(h.addrSet, h.last, a)) + Requests(inc, n)
  }

  /** The device performs the plain loop's reads, in order and nothing else -- all n of them if and
      only if the call increments or n is not eight past a multiple of 512. */
  lemma ReadCallRefinesLoop(h: Host, d: Device, a: Word, inc: bool, n: nat)
    requires Synced(h, d) && Quiet(d) && a % 4 == 0 && 1 <= n
    ensures var d' := Run(d, ReadCallSends(h, a, inc, n)); var k := ServedTotal(inc, n);
            var echo := if k > 0 && (d.newAddr || !(h.addrSet && a == h.last)) then [EchoEv(a)] else [];
            && Quiet(d') && d'.partial == [] && d'.wr == d.wr && d'.dict == d.dict
            && 0 <= d'.waddr < WORD_LIMIT && BusAddr(d'.waddr) == Along(a, inc, k)
            && d'.events == d.events + echo + NaiveReads(a, inc, k)
            && (k == n <==> inc || n % 512 != 8)
  {
    var c := AddressCode(h.addrSet, h.last, a);
    AddressStep(h, d, a);
    AddressCodeDecodes(h.addrSet, h.last, a);
    RequestsAt(Run(d, Chars(c)), a, inc, n);
    RunConcat(d, Chars(c), Requests(inc, n));
  }

  lemma RequestsAt(d: Device, a: Word, inc: bool, n: nat)
    requires Quiet(d) && 0 <= d.waddr < WORD_LIMIT && BusAddr(d.waddr) == a && 1 <= n
    ensures var d' := Run(d, Requests(inc, n)); var k := ServedTotal(inc, n);
            && Quiet(d') && d'.wr == d.wr && d'.dict == d.dict
            && 0 <= d'.waddr < WORD_LIMIT && BusAddr(d'.waddr) == Along(a, inc, k)
            && d'.events == d.events + (if k > 0 && d.newAddr then [EchoEv(a)] else [])
                            + NaiveReads(a, inc, k)
  {
    RequestsRun(d, inc, n);
    ReadsAreNaive(d.waddr, a, inc, ServedTotal(inc, n));
  }

  lemma ReadsAreNaive(w: int, a: Word, inc: bool, n: nat)
    requires 0 <= w < WORD_LIMIT && BusAddr(w) == a
    ensures Reads(w, inc, n) == NaiveReads(a, inc, n)
    ensures BusAddr((w + if inc then n else 0) % WORD_LIMIT) == Along(a, inc, n)
  {
    forall i | 0 <= i < n ensures Reads(w, inc, n)[i] == NaiveReads(a, inc, n)[i] {
      BusAddrAlong(w, if inc then i else 0);
    }
    BusAddrAlong(w, if inc then n else 0);
    WrapAddr(w + if inc then n else 0, 0);
  }

  lemma BusAddrAlong(w: int, i: nat)
    ensures BusAddr(w + i) == (BusAddr(w) + 4 * i) % WORD_LIMIT
  {
  }

  /** One line of requests: blocks of at most 512 words until 1024 are outstanding or nothing is left
      to ask for. */
  function Batch(inc: bool, left: nat, outstanding: nat): (s: seq<char>)
    requires left >= 1 && outstanding < 1024
    decreases left
  {
    var n := BlockSize(left, outstanding);
    Chars(ReadCode(inc, n))
    + if left > n && outstanding + n < 1024 then Batch(inc, left - n, outstanding + n) else []
  }

  function BlockSize(left: nat, outstanding: nat): (n: nat)
    requires left >= 1 && outstanding < 1024
    ensures 1 <= n <= 512 && n <= left && outstanding + n <= 1024
  {
    var n := if left > 512 then 512 else left;
    if outstanding + n > 1024 then 1024 - outstanding else n
  }

  /** The window's first line, and every later one. */
  lemma BatchIsHead(inc: bool, n: nat)
    requires n >= 1
    ensures Batch(inc, n, 0) == HeadRequests(inc, n)
  {
    if n > 512 {
      var m := BlockSize(n - 512, 512);
      assert Batch(inc, n - 512, 512) == Chars(ReadCode(inc, m)) + [];
    }
  }

  lemma BatchIsBlock(inc: bool, n: nat)
    requires n >= 1
    ensures Batch(inc, n, 512) == Chars(ReadCode(inc, if n > 512 then 512 else n))
  {
  }

  /** How far the requests have got once a line has been sent with nread words received. */
  function Asking(n: nat, nread: nat): nat {
    if n > nread + 1024 then nread + 1024 else n
  }

  /** Everything still to be sent when `asking` words have been requested and `nread` received. */
  function LinesLeft(inc: bool, n: nat, asking: nat, nread: nat): (s: seq<char>)
    requires nread <= asking < n && asking < nread + 1024
  {
    Batch(inc, n - asking, asking - nread) + ['\n'] + TailRequests(inc, n - Asking(n, nread))
  }

  lemma FirstLine(inc: bool, n: nat)
    requires n >= 1
    ensures LinesLeft(inc, n, 0, 0) == Requests(inc, n)
  {
    BatchIsHead(inc, n);
  }

  lemma LaterLine(inc: bool, n: nat, asking: nat, nread: nat)
    requires asking == nread + 512 && asking < n
    ensures LinesLeft(inc, n, asking, nread) == TailRequests(inc, n - asking)
  {
    var m := n - asking;
    BatchIsBlock(inc, m);
    var k := if m > 512 then 512 else m;
    assert TailRequests(inc, m) == Chars(ReadCode(inc, k)) + ['\n'] + TailRequests(inc, m - k);
  }

  lemma FirstGoal(pre: seq<char>, code: seq<char>, inc: bool, n: nat)
    requires n >= 1
    ensures pre + code + LinesLeft(inc, n, 0, 0) == pre + (code + Requests(inc, n))
  {
    FirstLine(inc, n);
  }

  lemma LaterGoal(pre: seq<char>, empty: seq<char>, inc: bool, n: nat, asking: nat, nread: nat)
    requires asking == nread + 512 && asking < n && empty == []
    ensures pre + empty + LinesLeft(inc, n, asking, nread) == pre + TailRequests(inc, n - asking)
  {
    LaterLine(inc, n, asking, nread);
  }

  lemma TailDone(inc: bool, s: seq<char>)
    ensures s + TailRequests(inc, 0) == s
  {
  }
}
