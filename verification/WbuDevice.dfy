/** The FPGA end of the debug bus, one received character at a time: character decoding, codeword
    framing, decompression and bus execution (rtl/wbubus/wbutohex.v, wbureadcw.v, wbudecompress.v,
    wbuexec.v), on a bus that answers without errors. */
module WbuDevice {
  import opened SixBit
  import Fold

  /** What the device does on its bus and on its reply channel, in order. */
  datatype Event =
    | WriteEv(addr: Word, w: Word)
    | ReadEv(addr: Word, inc: bool)
    | EchoEv(addr: Word)   // the address codeword that precedes a read from a new address
    | ErrorEv              // the bus-error codeword: a command arrived inside an open write
    | JunkEv               // a table reference to a slot with no defined content

  datatype Cmd =
    | SetAbs(n: int)
    | SetRel(n: int)
    | WriteRaw(w: Word, inc: bool)
    | WriteRef(dist: nat, inc: bool)
    | ReadWords(count: nat, inc: bool)
    | EndOfWrite
    | Nop

  /** `waddr` is the 32-bit word address register; the bus carries its low thirty bits.  `dict` is
      the write table without its junk: the slot at `wr` is overwritten by every codeword, so it
      never holds defined content. */
  datatype Device = Device(
    partial: seq<Six>,
    lastWrite: bool,
    writing: bool,
    newAddr: bool,
    waddr: int,
    wr: nat,
    dict: map<nat, Word>,
    events: seq<Event>)

  /** Codeword length, from its first character. */
  function CodeLen(v: Six): (n: nat)
    ensures 1 <= n <= 6
  {
    if v >= 48 then 2
    else if v >= 32 then 1
    else if 16 <= v < 24 then 2
    else if 8 <= v < 16 then 2 + v / 2 % 4
    else 6
  }

  predicate Complete(cw: seq<Six>) {
    cw != [] && |cw| == CodeLen(cw[0])
  }

  /** Two's complement reading of a k-digit field. */
  function SignExtend(n: int, k: nat): int
    requires k >= 1
  {
    if n >= 32 * Place(k - 1) then n - Place(k) else n
  }

  function Decode(cw: seq<Six>): Cmd
    requires Complete(cw)
  {
    var v := cw[0];
    var arg := Val(cw[1..]);
    if v < 4 then SetAbs(1073741824 * v + arg)
    else if v < 8 then Nop
    else if v < 16 then
      if v % 2 == 0 then SetAbs(arg) else SetRel(SignExtend(arg, |cw| - 1))
    else if v < 24 then
      WriteRef(64 * (v / 2 % 4) + arg, v % 2 == 1)
    else if v < 32 then
      PlaceValues();
      WriteRaw(1073741824 * (v / 2 % 4) + arg, v % 2 == 1)
    else if v == 46 then EndOfWrite
    else if v < 48 then ReadWords(1 + v / 2 % 8, v % 2 == 1)
    else ReadWords(9 + 64 * (v / 2 % 8) + arg, v % 2 == 1)
  }

  /** The byte address on the bus. */
  function BusAddr(waddr: int): (a: Word)
    ensures a % 4 == 0
  {
    4 * (waddr % 1073741824)
  }

  function Reads(waddr: int, inc: bool, n: nat): (r: seq<Event>)
    ensures |r| == n
  {
    seq(n, i requires 0 <= i < n => ReadEv(BusAddr(waddr + if inc then i else 0), inc))
  }

  function DoWrite(d: Device, w: Word, inc: bool): Device {
    d.(writing := true, newAddr := false,
       waddr := (d.waddr + if inc then 1 else 0) % WORD_LIMIT,
       events := d.events + [WriteEv(BusAddr(d.waddr), w)])
  }

  function Perform(d: Device, c: Cmd): Device {
    match c
    case WriteRaw(w, inc) =>
      DoWrite(d.(dict := d.dict[d.wr := w] - {(d.wr + 1) % 256}, wr := (d.wr + 1) % 256), w, inc)
    case WriteRef(dist, inc) =>
      var slot := (d.wr - dist) % 256;
      if slot in d.dict then DoWrite(d, d.dict[slot], inc)
      else d.(events := d.events + [JunkEv])
    case EndOfWrite => d.(writing := false)
    case Nop => if d.writing then d.(writing := false, events := d.events + [ErrorEv]) else d.(newAddr := true)
    case SetAbs(n) =>
      if d.writing then d.(writing := false, events := d.events + [ErrorEv])
      else d.(newAddr := true, waddr := n % WORD_LIMIT)
    case SetRel(n) =>
      if d.writing then d.(writing := false, events := d.events + [ErrorEv])
      else d.(newAddr := true, waddr := (d.waddr + n) % WORD_LIMIT)
    case ReadWords(n, inc) =>
      if d.writing then d.(writing := false, events := d.events + [ErrorEv])
      else d.(newAddr := false,
              waddr := (d.waddr + if inc then n else 0) % WORD_LIMIT,
              events := d.events + (if d.newAddr then [EchoEv(BusAddr(d.waddr))] else [])
                        + Reads(d.waddr, inc, n))
  }

  function Exec(d: Device, cw: seq<Six>): Device
    requires Complete(cw)
  {
    Perform(d.(partial := [], lastWrite := 16 <= cw[0] < 32), Decode(cw))
  }

  /** One received character.  Anything outside the alphabet drops a half-received codeword and
      closes an open write. */
  function Step(d: Device, c: char): Device {
    if !IsCode(c) then
      var d' := d.(partial := [], lastWrite := false);
      if d.lastWrite then Perform(d', EndOfWrite) else d'
    else
      var p := d.partial + [CharDec(c)];
      if |p| >= CodeLen(p[0]) then Exec(d, p[..CodeLen(p[0])]) else d.(partial := p)
  }

  function Run(d: Device, s: seq<char>): Device {
    Fold.Run(Step, d, s)
  }

  lemma RunConcat(d: Device, s: seq<char>, t: seq<char>)
    ensures Run(d, s + t) == Run(Run(d, s), t)
  {
    Fold.RunConcat(Step, d, s, t);
  }

  /** Codewords delimit themselves: between codewords, the characters of one codeword are exactly
      one command, whatever follows. */
  lemma RunCodeword(d: Device, cw: seq<Six>)
    requires d.partial == [] && Complete(cw)
    ensures Run(d, Chars(cw)) == Exec(d, cw)
  {
    var n := |cw|;
    RunPartial(d, cw[..n - 1]);
    assert Chars(cw)[..n - 1] == Chars(cw[..n - 1]);
    StepLast(d.(partial := cw[..n - 1]), cw);
  }

  lemma {:induction false} RunPartial(d: Device, p: seq<Six>)
    requires d.partial == [] && (p != [] ==> |p| < CodeLen(p[0]))
    ensures Run(d, Chars(p)) == d.(partial := p)
  {
    if p != [] {
      var q := p[..|p| - 1];
      RunPartial(d, q);
      assert Chars(p)[..|p| - 1] == Chars(q);
      assert q + [p[|p| - 1]] == p;
      StepPartial(d.(partial := q), p[|p| - 1]);
    }
  }

  lemma StepPartial(d: Device, v: Six)
    requires |d.partial| + 1 < CodeLen((d.partial + [v])[0])
    ensures Step(d, CharEnc(v)) == d.(partial := d.partial + [v])
  {
    AlphabetRoundTrip(v, CharEnc(v));
  }

  lemma StepLast(d: Device, cw: seq<Six>)
    requires Complete(cw) && d.partial == cw[..|cw| - 1]
    ensures Step(d, CharEnc(cw[|cw| - 1])) == Exec(d, cw)
  {
    AlphabetRoundTrip(cw[|cw| - 1], CharEnc(cw[|cw| - 1]));
    assert d.partial + [cw[|cw| - 1]] == cw;
    assert cw[..|cw|] == cw;
  }

  /** A line end drops a half-received codeword and closes an open write. */
  lemma RunNewline(d: Device)
    ensures Run(d, ['\n']) ==
            d.(partial := [], lastWrite := false, writing := d.writing && !d.lastWrite)
  {
    Fold.RunSingle(Step, d, '\n');
  }
}
