/** The serial line machine of sim/verilated/dbluartsim.cpp, one clock tick at a time: a transmitter, a
    resynchronising receiver, and the two connected.  Data registers are kept as their bits, least
    significant first. */
module UartLine {
  import opened Arith

  /** A byte on the line. */
  type Byte = s: seq<bool> | |s| == 8 witness seq(8, _ => false)

  /** A 32-bit register. */
  type Register = s: seq<bool> | |s| == 32 witness seq(32, _ => false)

  /** The pieces of the setup register. */
  datatype Config = Config(baud: nat, nbits: nat, parity: bool, fixed: bool, even: bool, nstop: nat)

  predicate ConfigValid(c: Config) {
    5 <= c.nbits <= 8 && 1 <= c.nstop <= 2
  }

  function Setup(isetup: nat): (c: Config)
    ensures ConfigValid(c)
  {
    Config(isetup % 0x100_0000,
           8 - isetup / 0x1000_0000 % 4,
           isetup / 0x400_0000 % 2 == 1,
           isetup / 0x200_0000 % 2 == 1,
           isetup / 0x100_0000 % 2 == 1,
           isetup / 0x800_0000 % 2 + 1)
  }

  /** The setup register of a configuration. */
  function Packed(c: Config): int {
    c.baud + 0x100_0000 * Flag(c.even) + 0x200_0000 * Flag(c.fixed) + 0x400_0000 * Flag(c.parity)
    + 0x800_0000 * (c.nstop - 1) + 0x1000_0000 * (8 - c.nbits)
  }

  function Flag(b: bool): nat {
    if b then 1 else 0
  }

  /** A field of a register is what is packed there, whatever lies above it and below. */
  lemma FieldIs(n: nat, unit: nat, width: nat, low: nat, field: nat, high: nat)
    requires unit > 0 && low < unit && field < width && n == low + unit * field + unit * (width * high)
    ensures n / unit % width == field && n % unit == low
  {
    assert unit * (field + width * high) == unit * field + unit * (width * high);
    DivModUnique(n, unit, field + width * high, low);
    DivModUnique(field + width * high, width, high, field);
  }

  /** Every configuration with a divisor of up to 24 bits can be set up, and bits 30 and up do not matter. */
  lemma SetupUnpacks(c: Config, high: nat)
    requires ConfigValid(c) && c.baud < 0x100_0000
    ensures Packed(c) >= 0 && Setup(Packed(c) + 0x4000_0000 * high) == c
  {
    var n := Packed(c) + 0x4000_0000 * high;
    var e, f, p, s, b: nat := Flag(c.even), Flag(c.fixed), Flag(c.parity), c.nstop - 1, 8 - c.nbits;
    FieldIs(n, 0x100_0000, 2, c.baud, e, f + 2 * p + 4 * s + 8 * b + 32 * high);
    FieldIs(n, 0x200_0000, 2, c.baud + 0x100_0000 * e, f, p + 2 * s + 4 * b + 16 * high);
    FieldIs(n, 0x400_0000, 2, c.baud + 0x100_0000 * e + 0x200_0000 * f, p, s + 2 * b + 8 * high);
    FieldIs(n, 0x800_0000, 2, c.baud + 0x100_0000 * e + 0x200_0000 * f + 0x400_0000 * p, s, b + 4 * high);
    FieldIs(n, 0x1000_0000, 4, n - 0x1000_0000 * (b + 4 * high), b, high);
  }

  /** And a setup register is its configuration, packed, but for those bits. */
  lemma SetupPacks(isetup: nat)
    ensures Packed(Setup(isetup)) == isetup % 0x4000_0000
  {
    var n := isetup % 0x4000_0000;
    DivModUnique(isetup, 0x100_0000, 64 * (isetup / 0x4000_0000) + n / 0x100_0000, n % 0x100_0000);
    BitsOf(n / 0x100_0000);
    HighBits(isetup);
  }

  /** A number below 64, bit by bit. */
  lemma BitsOf(x: nat)
    requires x < 64
    ensures x == x % 2 + 2 * (x / 2 % 2) + 4 * (x / 4 % 2) + 8 * (x / 8 % 2) + 16 * (x / 16 % 4)
  {
    DivDiv(x, 2, 2);
    DivDiv(x, 4, 2);
    DivDiv(x, 8, 2);
    SmallMod(x / 16, 4);
  }

  lemma HighBits(isetup: nat)
    ensures var x := isetup % 0x4000_0000 / 0x100_0000;
            && isetup / 0x100_0000 % 2 == x % 2 && isetup / 0x200_0000 % 2 == x / 2 % 2 && isetup / 0x400_0000 % 2 == x / 4 % 2
            && isetup / 0x800_0000 % 2 == x / 8 % 2 && isetup / 0x1000_0000 % 4 == x / 16 % 4
  {
    HighIgnored(isetup, 0x100_0000, 2, 32);
    HighIgnored(isetup, 0x200_0000, 2, 16);
    HighIgnored(isetup, 0x400_0000, 2, 8);
    HighIgnored(isetup, 0x800_0000, 2, 4);
    HighIgnored(isetup, 0x1000_0000, 4, 1);
    var n := isetup % 0x4000_0000;
    DivDiv(n, 0x100_0000, 2);
    DivDiv(n, 0x100_0000, 4);
    DivDiv(n, 0x100_0000, 8);
    DivDiv(n, 0x100_0000, 16);
  }

  lemma HighIgnored(n: nat, unit: nat, width: nat, k: nat)
    requires unit > 0 && width > 0 && unit * (width * k) == 0x4000_0000
    ensures n / unit % width == n % 0x4000_0000 / unit % width
  {
    var q, r := n / 0x4000_0000, n % 0x4000_0000;
    var m := r / unit;
    Regroup(unit, width * k, q);
    Add(unit, width * k * q, m);
    DivModUnique(n, unit, width * k * q + m, r % unit);
    Regroup(width, k, q);
    ModMultiple(m, width, k * q);
  }

  lemma Regroup(a: int, b: int, c: int)
    ensures a * b * c == a * (b * c)
  {
  }

  lemma Add(a: int, b: int, c: int)
    ensures a * (b + c) == a * b + a * c
  {
  }

  /** Data and parity bits of a frame. */
  function Payload(c: Config): nat {
    c.nbits + if c.parity then 1 else 0
  }

  /** All bits of a frame after its start bit. */
  function Length(c: Config): nat {
    Payload(c) + c.nstop
  }

  // ---------------------------------------------------------------------------------------------
  // Transmitter

  datatype Tx = TxIdle | TxData(counter: int, busy: int, data: Register)

  /** The frame before its parity bit is set: a low start bit, the byte, and ones from the stop bits
      upward; where they overlap, the bits are or-ed. */
  function Plain(c: Config, ch: Byte): Register {
    seq(32, i requires 0 <= i < 32 => i >= Payload(c) + 1 || (1 <= i <= 8 && ch[i - 1]))
  }

  function Xor8(d: Register): bool {
    // bits 1 to 8, folded onto themselves by four, two and one
    ((d[1] != d[5]) != (d[3] != d[7])) != ((d[2] != d[6]) != (d[4] != d[8]))
  }

  function ParityBit(c: Config, d: Register): bool {
    if c.fixed then c.even else Xor8(d) != c.even
  }

  function Frame(c: Config, ch: Byte): (f: Register)
    requires ConfigValid(c)
  {
    var d := Plain(c, ch);
    if c.parity then d[Payload(c) := d[Payload(c)] || ParityBit(c, d)] else d
  }

  function Shift(d: Register): Register {
    d[1..] + [false]
  }

  datatype Sent = Sent(tx: Tx, line: bool)

  /** One tick; `next` is the byte waiting to be sent, if any. */
  function TxStep(c: Config, t: Tx, next: seq<Byte>): Sent
    requires ConfigValid(c) && |next| <= 1
  {
    match t
    case TxIdle =>
      if next == [] then Sent(TxIdle, true)
      else Sent(TxData(c.baud - 1, Pow2(Length(c) + 1) - 1, Frame(c, next[0])), false)
    case TxData(counter, busy, data) =>
      if counter <= 0 then
        var data', busy' := Shift(data), busy / 2;
        Sent(if busy' == 0 then TxIdle else TxData(c.baud - 1, busy', data'), data'[0])
      else
        Sent(TxData(counter - 1, busy, data), data[0])
  }

  // ---------------------------------------------------------------------------------------------
  // Receiver

  datatype Rx = Rx(receiving: bool, counter: int, busy: int, data: Register, change: int, last: bool)

  datatype Received = Received(rx: Rx, out: seq<Byte>)

  /** The byte cut out of the receive register. */
  function Extract(c: Config, d: Register): Byte
    requires ConfigValid(c)
  {
    seq(8, i requires 0 <= i < 8 => i < Length(c) && d[32 - Length(c) + i])
  }

  function RxStep(c: Config, r: Rx, line: bool): Received
    requires ConfigValid(c)
  {
    var change := if !line && r.last then 0 else r.change + 1;
    var r1 := r.(change := change, last := line);
    if !r.receiving then
      if line then Received(r1, [])
      else Received(r1.(receiving := true, counter := c.baud + c.baud / 2 - 1 - change, busy := 0,
                        data := seq(32, _ => false)), [])
    else if r.counter <= 0 then
      if r.busy >= Pow2(Length(c) - 1) then
        Received(r1.(receiving := false, counter := c.baud - 1), [Extract(c, r.data)])
      else
        Received(r1.(busy := 2 * r.busy + 1, data := r.data[1..] + [line], counter := c.baud - 1), [])
    else Received(r1.(counter := r.counter - 1), [])
  }

  // ---------------------------------------------------------------------------------------------
  // The two connected

  datatype Link = Link(tx: Tx, rx: Rx, accepted: seq<Byte>, delivered: seq<Byte>)

  function LinkStep(c: Config, s: Link, next: seq<Byte>): Link
    requires ConfigValid(c) && |next| <= 1
  {
    var t := TxStep(c, s.tx, next);
    var r := RxStep(c, s.rx, t.line);
    Link(t.tx, r.rx, if s.tx.TxIdle? then s.accepted + next else s.accepted, s.delivered + r.out)
  }

  /** A line that has been idle high, and nothing sent yet. */
  predicate Fresh(s: Link) {
    s.tx.TxIdle? && !s.rx.receiving && s.rx.last && s.accepted == [] && s.delivered == []
  }

  // ---------------------------------------------------------------------------------------------
  // Where transmitter and receiver stand

  /** Ticks per bit, and from a bit's start to its sample. */
  function Period(c: Config): nat {
    if c.baud == 0 then 1 else c.baud
  }

  function Half(c: Config): nat {
    c.baud / 2
  }

  /** A counter at or below zero has run out, however far below. */
  function Left(counter: int): nat {
    if counter <= 0 then 0 else counter
  }

  /** The transmitter has had bit j of ch on the line for o + 1 ticks. */
  ghost predicate Sending(c: Config, t: Tx, ch: Byte, j: nat, o: nat)
    requires ConfigValid(c)
  {
    && t.TxData? && j <= Length(c) && o < Period(c)
    && Left(t.counter) == Period(c) - 1 - o
    && t.busy == Pow2(Length(c) + 1 - j) - 1
    && t.data[..32 - j] == Frame(c, ch)[j..]
  }

  /** The receiver has taken k samples of ch's frame and takes the next one in n + 1 ticks. */
  ghost predicate Sampling(c: Config, r: Rx, ch: Byte, k: nat, n: nat)
    requires ConfigValid(c)
  {
    && r.receiving && k <= Length(c) && Left(r.counter) == n && r.busy == Pow2(k) - 1
    && r.data[32 - k..] == Frame(c, ch)[1..k + 1]
  }

  /** The receiver's place in a frame, seen from the transmitter's. */
  ghost predicate Aligned(c: Config, r: Rx, ch: Byte, j: nat, o: nat)
    requires ConfigValid(c)
  {
    var P, H := Period(c), Half(c);
    if j >= 1 && o < H then Sampling(c, r, ch, j - 1, H - o - 1)
    else o <= P + H - 1 && Sampling(c, r, ch, j, P - o + H - 1)
  }

  datatype Phase =
    | Quiet                                            // both idle
    | Within(ch: Byte, j: nat, o: nat)                 // in the middle of a frame
    | Tail(ch: Byte, e: nat)                           // line idle for e + 1 ticks, byte not yet out
    | Overlap(prev: Byte, ch: Byte, o: nat, e: nat)    // next frame begun, byte not yet out
    | Late(ch: Byte, o: nat)                           // frame begun while the receiver was busy

  ghost predicate InPhase(c: Config, s: Link, p: Phase, done: seq<Byte>)
    requires ConfigValid(c)
  {
    var P, H, N := Period(c), Half(c), Length(c);
    match p
    case Quiet =>
      s.tx.TxIdle? && !s.rx.receiving && s.rx.last && s.accepted == done
    case Within(ch, j, o) =>
      && Sending(c, s.tx, ch, j, o) && s.rx.last == Frame(c, ch)[j]
      && Aligned(c, s.rx, ch, j, o)
      && s.accepted == done + [ch]
    case Tail(ch, e) =>
      && s.tx.TxIdle? && s.rx.last && e < H && Sampling(c, s.rx, ch, N, H - e - 1)
      && s.accepted == done + [ch]
    case Overlap(prev, ch, o, e) =>
      && Sending(c, s.tx, ch, 0, o) && !s.rx.last && s.rx.change == o && o < e < H
      && Sampling(c, s.rx, prev, N, H - e - 1)
      && s.accepted == done + [prev, ch]
    case Late(ch, o) =>
      && Sending(c, s.tx, ch, 0, o) && !s.rx.last && !s.rx.receiving && s.rx.change == o && o < H
      && s.accepted == done + [ch]
  }

  /** What the receiver makes of a byte. */
  function Echo(c: Config, ch: Byte): Byte
    requires ConfigValid(c)
  {
    seq(8, i requires 0 <= i < 8 => i < Length(c) && Frame(c, ch)[i + 1])
  }

  function Echoes(c: Config, chs: seq<Byte>): (r: seq<Byte>)
    requires ConfigValid(c)
    ensures |r| == |chs|
  {
    seq(|chs|, i requires 0 <= i < |chs| => Echo(c, chs[i]))
  }

  ghost predicate Sound(c: Config, s: Link, p: Phase, done: seq<Byte>)
    requires ConfigValid(c)
  {
    InPhase(c, s, p, done) && s.delivered == Echoes(c, done)
  }

  // ---------------------------------------------------------------------------------------------
  // One tick of each half

  /** The busy pattern of k ones has reached the last of n bits exactly when k >= n. */
  lemma BusyThreshold(k: nat, n: nat)
    requires n >= 1
    ensures Pow2(k) - 1 >= Pow2(n - 1) <==> k >= n
  {
    if k >= n {
      Pow2Mono(n, k);
    } else {
      Pow2Mono(k, n - 1);
    }
  }

  lemma FrameEnds(c: Config, ch: Byte)
    requires ConfigValid(c)
    ensures !Frame(c, ch)[0]
    ensures forall i :: Payload(c) < i < 32 ==> Frame(c, ch)[i]
  {
    assert Plain(c, ch)[0] == (0 >= Payload(c) + 1);
  }

  lemma TxHolds(c: Config, t: Tx, ch: Byte, j: nat, o: nat, next: seq<Byte>)
    requires ConfigValid(c) && |next| <= 1 && Sending(c, t, ch, j, o) && o + 1 < Period(c)
    ensures var u := TxStep(c, t, next); Sending(c, u.tx, ch, j, o + 1) && u.line == Frame(c, ch)[j]
  {
    assert t.data[0] == t.data[..32 - j][0];
  }

  lemma TxShifts(c: Config, t: Tx, ch: Byte, j: nat, o: nat, next: seq<Byte>)
    requires ConfigValid(c) && |next| <= 1 && Sending(c, t, ch, j, o) && o + 1 == Period(c)
    ensures var u := TxStep(c, t, next);
            && u.line == Frame(c, ch)[j + 1]
            && if j < Length(c) then Sending(c, u.tx, ch, j + 1, 0) else u.tx.TxIdle?
  {
    var d := Shift(t.data);
    assert d[..31 - j] == t.data[..32 - j][1..] == Frame(c, ch)[j..][1..] == Frame(c, ch)[j + 1..];
    assert d[0] == d[..31 - j][0];
    assert Pow2(Length(c) + 1 - j) == 2 * Pow2(Length(c) - j);
    if j < Length(c) {
      assert Pow2(Length(c) - j) == 2 * Pow2(Length(c) - j - 1);
    }
  }

  lemma TxStarts(c: Config, ch: Byte)
    requires ConfigValid(c)
    ensures var u := TxStep(c, TxIdle, [ch]); Sending(c, u.tx, ch, 0, 0) && !u.line
  {
    FrameEnds(c, ch);
    var f := Frame(c, ch);
    assert f[..32] == f[0..];
  }

  /** The transmitter after n ticks, of which the first takes a byte. */
  function Sends(c: Config, ch: Byte, n: nat): Sent
    requires ConfigValid(c)
  {
    if n == 0 then Sent(TxIdle, true)
    else TxStep(c, Sends(c, ch, n - 1).tx, if n == 1 then [ch] else [])
  }

  lemma {:induction false} SendsAt(c: Config, ch: Byte, n: nat, j: nat, o: nat)
    requires ConfigValid(c) && j <= Length(c) && o < Period(c) && n == Period(c) * j + o + 1
    ensures Sending(c, Sends(c, ch, n).tx, ch, j, o) && Sends(c, ch, n).line == Frame(c, ch)[j]
    decreases j, o
  {
    var p := Period(c);
    FrameEnds(c, ch);
    if n == 1 {
      NoneYet(p, j, o);
      TxStarts(c, ch);
    } else if o > 0 {
      SendsAt(c, ch, n - 1, j, o - 1);
      TxHolds(c, Sends(c, ch, n - 1).tx, ch, j, o - 1, []);
    } else {
      MulSub(p, j, 1);
      SendsAt(c, ch, n - 1, j - 1, p - 1);
      TxShifts(c, Sends(c, ch, n - 1).tx, ch, j - 1, p - 1, []);
    }
  }

  lemma NoneYet(p: nat, j: nat, o: nat)
    requires p > 0 && p * j + o == 0
    ensures j == 0 && o == 0
  {
    if j > 0 {
      MulMono(p, 1, j);
    }
  }

  /** What is on the wire: a low start bit, the data bits of the frame from the lowest up, the parity bit if there is
      one, and high stop bits, each for as many ticks as the divisor says; then the line stays high. */
  lemma WireCarries(c: Config, ch: Byte, j: nat, o: nat)
    requires ConfigValid(c) && c.baud >= 1 && o < c.baud && j <= Length(c)
    ensures Sends(c, ch, c.baud * j + o + 1).line ==
            if j == 0 then false
            else if j <= c.nbits then ch[j - 1]
            else if c.parity && j == c.nbits + 1 then Frame(c, ch)[j]
            else true
  {
    SendsAt(c, ch, c.baud * j + o + 1, j, o);
    FrameShape(c, ch, j);
  }

  lemma FrameShape(c: Config, ch: Byte, j: nat)
    requires ConfigValid(c) && j <= Length(c)
    ensures j == 0 ==> !Frame(c, ch)[j]
    ensures 1 <= j <= c.nbits ==> Frame(c, ch)[j] == ch[j - 1]
    ensures j > Payload(c) ==> Frame(c, ch)[j]
  {
    var d := Plain(c, ch);
    assert d[j] == (j >= Payload(c) + 1 || (1 <= j <= 8 && ch[j - 1]));
  }

  lemma RxWaits(c: Config, r: Rx, ch: Byte, k: nat, n: nat, line: bool)
    requires ConfigValid(c) && Sampling(c, r, ch, k, n) && n > 0
    ensures var u := RxStep(c, r, line); Sampling(c, u.rx, ch, k, n - 1) && u.out == []
  {
  }

  /** The receiver after n ticks of a line. */
  function RxAt(c: Config, r: Rx, line: nat -> bool, n: nat): Rx
    requires ConfigValid(c)
  {
    if n == 0 then r else RxStep(c, RxAt(c, r, line, n - 1), line(n - 1)).rx
  }

  /** The middle of bit k, counted from the start bit, for a divisor of at least one. */
  function Middle(c: Config, k: nat): nat {
    if k == 0 then c.baud / 2 else Middle(c, k - 1) + c.baud
  }

  lemma {:induction false} MiddleIs(c: Config, k: nat)
    ensures Middle(c, k) == c.baud * k + c.baud / 2
  {
    if k > 0 {
      MiddleIs(c, k - 1);
      MulSub(c.baud, k, 1);
    }
  }

  /** The middle of the i-th bit after the start bit. */
  function Sample(c: Config, i: nat): nat {
    Middle(c, i + 1)
  }

  /** The receiver has taken the first k samples, and takes the next in `left` ticks more. */
  predicate Took(c: Config, r: Rx, line: nat -> bool, k: nat, left: int) {
    && r.receiving && k <= 32 && left >= 0 && Left(r.counter) == left && r.busy == Pow2(k) - 1
    && forall i :: 0 <= i < k ==> r.data[32 - k + i] == line(Sample(c, i))
  }

  lemma TakesSample(c: Config, r: Rx, line: nat -> bool, k: nat)
    requires ConfigValid(c) && c.baud >= 1 && Took(c, r, line, k, 0) && k < Length(c)
    ensures Took(c, RxStep(c, r, line(Middle(c, k + 1))).rx, line, k + 1, c.baud - 1)
  {
    BusyThreshold(k, Length(c));
    var x := line(Middle(c, k + 1));
    var d := r.data[1..] + [x];
    forall i | 0 <= i < k + 1 ensures d[31 - k + i] == line(Sample(c, i)) {
      if i < k {
        assert d[31 - k + i] == r.data[32 - k + i];
      }
    }
  }

  lemma StartsTaking(c: Config, r: Rx, line: nat -> bool)
    requires ConfigValid(c) && c.baud >= 1 && !r.receiving && r.last && !line(0)
    ensures Took(c, RxStep(c, r, line(0)).rx, line, 0, c.baud + c.baud / 2 - 1)
  {
  }

  lemma WaitsSample(c: Config, r: Rx, line: nat -> bool, k: nat, left: int, x: bool)
    requires ConfigValid(c) && Took(c, r, line, k, left) && left > 0
    ensures Took(c, RxStep(c, r, x).rx, line, k, left - 1)
  {
  }

  /** From a falling edge on, the receiver samples the middle of every bit. */
  lemma {:induction false} SampledBy(c: Config, r: Rx, line: nat -> bool, n: nat, k: nat, next: nat)
    requires ConfigValid(c) && c.baud >= 1 && !r.receiving && r.last && !line(0) && next == Middle(c, k + 1)
    requires 1 <= n <= next && k <= Length(c) && (k > 0 ==> n > Middle(c, k))
    ensures Took(c, RxAt(c, r, line, n), line, k, next - n)
  {
    if n == 1 {
      Early(c, k);
      StartsTaking(c, r, line);
      assert RxAt(c, r, line, 0) == r;
    } else if k > 0 && n - 1 == Middle(c, k) {
      SampledBy(c, r, line, n - 1, k - 1, n - 1);
      TakesSample(c, RxAt(c, r, line, n - 1), line, k - 1);
    } else {
      SampledBy(c, r, line, n - 1, k, next);
      WaitsSample(c, RxAt(c, r, line, n - 1), line, k, next - n + 1, line(n - 1));
    }
  }

  lemma Early(c: Config, k: nat)
    requires c.baud >= 1 && (k > 0 ==> 1 > Middle(c, k))
    ensures k == 0 && Middle(c, 1) == c.baud + c.baud / 2
  {
    assert Middle(c, 1) == Middle(c, 0) + c.baud;
  }

  /** So whatever is on the line: a frame after its falling edge is delivered as what the line was in the middle of each
      data bit, half a bit after its last one. */
  lemma MiddlesDelivered(c: Config, r: Rx, line: nat -> bool, n: nat, i: nat)
    requires ConfigValid(c) && c.baud >= 1 && !r.receiving && r.last && !line(0) && i < 8 && n == Middle(c, Length(c) + 1)
    ensures var u := RxStep(c, RxAt(c, r, line, n), line(n));
            |u.out| == 1 && !u.rx.receiving && u.out[0][i] == (i < Length(c) && line(Sample(c, i)))
  {
    SampledBy(c, r, line, n, Length(c), n);
    Delivers(c, RxAt(c, r, line, n), line, line(n), i);
  }

  lemma Delivers(c: Config, r: Rx, line: nat -> bool, x: bool, i: nat)
    requires ConfigValid(c) && Took(c, r, line, Length(c), 0) && i < 8
    ensures var u := RxStep(c, r, x);
            |u.out| == 1 && !u.rx.receiving && u.out[0][i] == (i < Length(c) && line(Sample(c, i)))
  {
    BusyThreshold(Length(c), Length(c));
    ExtractIs(c, r, line, i);
  }

  lemma ExtractIs(c: Config, r: Rx, line: nat -> bool, i: nat)
    requires ConfigValid(c) && Took(c, r, line, Length(c), 0) && i < 8
    ensures Extract(c, r.data)[i] == (i < Length(c) && line(Sample(c, i)))
  {
  }

  lemma SampleShifts(d: Register, f: Register, k: nat, line: bool)
    requires k < 31 && d[32 - k..] == f[1..k + 1] && line == f[k + 1]
    ensures (d[1..] + [line])[31 - k..] == f[1..k + 2]
  {
    assert (d[1..] + [line])[31 - k..] == d[32 - k..] + [line];
    assert f[1..k + 2] == f[1..k + 1] + [f[k + 1]];
  }

  lemma RxSamples(c: Config, r: Rx, ch: Byte, k: nat, line: bool)
    requires ConfigValid(c) && Sampling(c, r, ch, k, 0) && k < Length(c) && line == Frame(c, ch)[k + 1]
    ensures var u := RxStep(c, r, line); Sampling(c, u.rx, ch, k + 1, Period(c) - 1) && u.out == []
  {
    BusyThreshold(k, Length(c));
    SampleShifts(r.data, Frame(c, ch), k, line);
  }

  lemma RxDelivers(c: Config, r: Rx, ch: Byte, line: bool)
    requires ConfigValid(c) && Sampling(c, r, ch, Length(c), 0)
    ensures var u := RxStep(c, r, line); !u.rx.receiving && u.out == [Echo(c, ch)]
  {
    var N := Length(c);
    BusyThreshold(N, N);
    var x, y := Extract(c, r.data), Echo(c, ch);
    forall i | 0 <= i < 8 ensures x[i] == y[i] {
      if i < N {
        assert r.data[32 - N..][i] == Frame(c, ch)[1..N + 1][i];
      }
    }
    assert x == y;
  }

  /** The receiver notices the start bit o ticks after it began and lines its first sample up with the
      middle of the first data bit all the same. */
  lemma RxStarts(c: Config, r: Rx, ch: Byte, o: nat)
    requires ConfigValid(c) && !r.receiving && o < Period(c) && o <= Half(c)
    requires if r.last then o == 0 else r.change + 1 == o
    ensures var u := RxStep(c, r, false);
            Sampling(c, u.rx, ch, 0, Period(c) - o + Half(c) - 1) && u.out == []
  {
    assert seq(32, _ => false)[32..] == Frame(c, ch)[1..1];
  }

  // ---------------------------------------------------------------------------------------------
  // One tick of the link, phase by phase

  lemma EchoesAppend(c: Config, done: seq<Byte>, ch: Byte)
    requires ConfigValid(c)
    ensures Echoes(c, done + [ch]) == Echoes(c, done) + [Echo(c, ch)]
  {
  }

  /** Ticks until the last accepted byte is out, if no other follows. */
  ghost function Remaining(c: Config, p: Phase): int {
    match p
    case Quiet => 0
    case Within(_, j, o) => Period(c) * (Length(c) + 1 - j) - o + Half(c)
    case Tail(_, e) => Half(c) - e
    case Overlap(_, _, o, _) => Period(c) * (Length(c) + 1) - o + Half(c)
    case Late(_, o) => Period(c) * (Length(c) + 1) - o + Half(c)
  }

  lemma FromQuiet(c: Config, s: Link, done: seq<Byte>, next: seq<Byte>) returns (p: Phase)
    requires ConfigValid(c) && |next| <= 1 && Sound(c, s, Quiet, done)
    ensures Sound(c, LinkStep(c, s, next), p, done) && (next == [] ==> p == Quiet)
  {
    if next == [] {
      p := Quiet;
    } else {
      var ch := next[0];
      TxStarts(c, ch);
      RxStarts(c, s.rx, ch, 0);
      FrameEnds(c, ch);
      p := Within(ch, 0, 0);
    }
  }

  lemma FromLate(c: Config, s: Link, ch: Byte, o: nat, done: seq<Byte>, next: seq<Byte>)
    returns (p: Phase)
    requires ConfigValid(c) && |next| <= 1 && Sound(c, s, Late(ch, o), done)
    ensures Sound(c, LinkStep(c, s, next), p, done) && Remaining(c, p) == Remaining(c, Late(ch, o)) - 1
  {
    FrameEnds(c, ch);
    TxHolds(c, s.tx, ch, 0, o, next);
    RxStarts(c, s.rx, ch, o + 1);
    p := Within(ch, 0, o + 1);
  }

  lemma FromOverlap(c: Config, s: Link, prev: Byte, ch: Byte, o: nat, e: nat, done: seq<Byte>, next: seq<Byte>)
    returns (p: Phase, done': seq<Byte>)
    requires ConfigValid(c) && |next| <= 1 && Sound(c, s, Overlap(prev, ch, o, e), done)
    ensures Sound(c, LinkStep(c, s, next), p, done')
    ensures Remaining(c, p) == Remaining(c, Overlap(prev, ch, o, e)) - 1
  {
    FrameEnds(c, ch);
    TxHolds(c, s.tx, ch, 0, o, next);
    if e + 1 < Half(c) {
      RxWaits(c, s.rx, prev, Length(c), Half(c) - e - 1, false);
      p, done' := Overlap(prev, ch, o + 1, e + 1), done;
    } else {
      RxDelivers(c, s.rx, prev, false);
      EchoesAppend(c, done, prev);
      assert done + [prev, ch] == done + [prev] + [ch];
      p, done' := Late(ch, o + 1), done + [prev];
    }
  }

  lemma FromTail(c: Config, s: Link, ch: Byte, e: nat, done: seq<Byte>, next: seq<Byte>)
    returns (p: Phase, done': seq<Byte>)
    requires ConfigValid(c) && |next| <= 1 && Sound(c, s, Tail(ch, e), done)
    ensures Sound(c, LinkStep(c, s, next), p, done')
    ensures next == [] ==> Remaining(c, p) == Remaining(c, Tail(ch, e)) - 1
  {
    var line := next == [];
    if next != [] {
      TxStarts(c, next[0]);
      assert done + [ch] + next == done + [ch, next[0]];
    }
    if e + 1 < Half(c) {
      RxWaits(c, s.rx, ch, Length(c), Half(c) - e - 1, line);
      p, done' := if line then Tail(ch, e + 1) else Overlap(ch, next[0], 0, e + 1), done;
    } else {
      RxDelivers(c, s.rx, ch, line);
      EchoesAppend(c, done, ch);
      p, done' := if line then Quiet else Late(next[0], 0), done + [ch];
    }
  }

  lemma RemainingStep(c: Config, ch: Byte, j: nat, o: nat)
    ensures var now := Remaining(c, Within(ch, j, o));
            && Remaining(c, Within(ch, j, o + 1)) == now - 1
            && (o + 1 == Period(c) ==> Remaining(c, Within(ch, j + 1, 0)) == now - 1)
            && (o + 1 == Period(c) && j == Length(c) ==> now == Half(c) + 1)
  {
    MulSub(Period(c), Length(c) + 1 - j, 1);
  }

  lemma FromWithin(c: Config, s: Link, ch: Byte, j: nat, o: nat, done: seq<Byte>, next: seq<Byte>)
    returns (p: Phase, done': seq<Byte>)
    requires ConfigValid(c) && |next| <= 1 && Sound(c, s, Within(ch, j, o), done)
    ensures Sound(c, LinkStep(c, s, next), p, done')
    ensures Remaining(c, p) == Remaining(c, Within(ch, j, o)) - 1
  {
    RemainingStep(c, ch, j, o);
    if o + 1 < Period(c) {
      TxHolds(c, s.tx, ch, j, o, next);
      WithinBit(c, s.rx, ch, j, o);
      p, done' := Within(ch, j, o + 1), done;
    } else {
      p, done' := FromBitEnd(c, s, ch, j, o, done, next);
    }
  }

  lemma FromBitEnd(c: Config, s: Link, ch: Byte, j: nat, o: nat, done: seq<Byte>, next: seq<Byte>)
    returns (p: Phase, done': seq<Byte>)
    requires ConfigValid(c) && |next| <= 1 && Sound(c, s, Within(ch, j, o), done) && o + 1 == Period(c)
    ensures Sound(c, LinkStep(c, s, next), p, done')
    ensures p == if j < Length(c) then Within(ch, j + 1, 0) else if Half(c) > 0 then Tail(ch, 0) else Quiet
  {
    FrameEnds(c, ch);
    TxShifts(c, s.tx, ch, j, o, next);
    NextBit(c, s.rx, ch, j, Frame(c, ch)[j + 1]);
    done' := done;
    if j < Length(c) {
      p := Within(ch, j + 1, 0);
    } else if Half(c) > 0 {
      p := Tail(ch, 0);
    } else {
      EchoesAppend(c, done, ch);
      p, done' := Quiet, done + [ch];
    }
  }

  lemma WithinBit(c: Config, r: Rx, ch: Byte, j: nat, o: nat)
    requires ConfigValid(c) && j <= Length(c) && o + 1 < Period(c) && Aligned(c, r, ch, j, o)
    ensures var u := RxStep(c, r, Frame(c, ch)[j]); Aligned(c, u.rx, ch, j, o + 1) && u.out == []
  {
    var P, H := Period(c), Half(c);
    var line := Frame(c, ch)[j];
    if j >= 1 && o < H {
      if o + 1 < H {
        RxWaits(c, r, ch, j - 1, H - o - 1, line);
      } else {
        RxSamples(c, r, ch, j - 1, line);
      }
    } else {
      RxWaits(c, r, ch, j, P - o + H - 1, line);
    }
  }

  lemma NextBit(c: Config, r: Rx, ch: Byte, j: nat, line: bool)
    requires ConfigValid(c) && j <= Length(c) && Aligned(c, r, ch, j, Period(c) - 1)
    requires line == Frame(c, ch)[j + 1]
    ensures var u := RxStep(c, r, line); var N, H := Length(c), Half(c);
            if j < N then Aligned(c, u.rx, ch, j + 1, 0) && u.out == []
            else if H > 0 then Sampling(c, u.rx, ch, N, H - 1) && u.out == []
            else !u.rx.receiving && u.out == [Echo(c, ch)]
  {
    var H := Half(c);
    if H > 0 {
      RxWaits(c, r, ch, j, H, line);
    } else if j < Length(c) {
      RxSamples(c, r, ch, j, line);
    } else {
      RxDelivers(c, r, ch, line);
    }
  }

  // ---------------------------------------------------------------------------------------------
  // Whole runs

  /** Some phase explains the state. */
  ghost predicate Explained(c: Config, s: Link)
    requires ConfigValid(c)
  {
    exists p, done :: Sound(c, s, p, done)
  }

  lemma StepPhase(c: Config, s: Link, p: Phase, done: seq<Byte>, next: seq<Byte>)
    returns (p': Phase, done': seq<Byte>)
    requires ConfigValid(c) && |next| <= 1 && Sound(c, s, p, done)
    ensures Sound(c, LinkStep(c, s, next), p', done')
    ensures next == [] ==> Remaining(c, p') == if p.Quiet? then 0 else Remaining(c, p) - 1
  {
    done' := done;
    match p {
      case Quiet => p' := FromQuiet(c, s, done, next);
      case Within(ch, j, o) => p', done' := FromWithin(c, s, ch, j, o, done, next);
      case Tail(ch, e) => p', done' := FromTail(c, s, ch, e, done, next);
      case Overlap(prev, ch, o, e) => p', done' := FromOverlap(c, s, prev, ch, o, e, done, next);
      case Late(ch, o) => p' := FromLate(c, s, ch, o, done, next);
    }
  }

  lemma StepExplained(c: Config, s: Link, next: seq<Byte>)
    requires ConfigValid(c) && |next| <= 1 && Explained(c, s)
    ensures Explained(c, LinkStep(c, s, next))
  {
    var p, done :| Sound(c, s, p, done);
    var p', done' := StepPhase(c, s, p, done, next);
  }

  /** What is waiting at each tick. */
  predicate OffersValid(offers: seq<seq<Byte>>) {
    forall n <- offers :: |n| <= 1
  }

  function LinkRun(c: Config, s: Link, offers: seq<seq<Byte>>): Link
    requires ConfigValid(c) && OffersValid(offers)
  {
    if offers == [] then s
    else LinkStep(c, LinkRun(c, s, offers[..|offers| - 1]), offers[|offers| - 1])
  }

  lemma {:induction false} RunExplained(c: Config, s: Link, offers: seq<seq<Byte>>)
    requires ConfigValid(c) && OffersValid(offers) && Explained(c, s)
    ensures Explained(c, LinkRun(c, s, offers))
  {
    if offers != [] {
      RunExplained(c, s, offers[..|offers| - 1]);
      StepExplained(c, LinkRun(c, s, offers[..|offers| - 1]), offers[|offers| - 1]);
    }
  }

  /** Over any run, with any gaps between bytes, for any divisor and any frame format: what has been
      delivered is the echo of what was accepted, in order, short of the last two bytes at most; and
      once both ends are idle nothing is missing. */
  lemma LoopbackInOrder(c: Config, s: Link, offers: seq<seq<Byte>>)
    requires ConfigValid(c) && OffersValid(offers) && Fresh(s)
    ensures var r := LinkRun(c, s, offers);
            && |r.delivered| <= |r.accepted| <= |r.delivered| + 2
            && r.delivered == Echoes(c, r.accepted[..|r.delivered|])
            && (r.tx.TxIdle? && !r.rx.receiving ==> r.delivered == Echoes(c, r.accepted))
  {
    FreshExplained(c, s);
    RunExplained(c, s, offers);
    ExplainedMeans(c, LinkRun(c, s, offers));
  }

  lemma FreshExplained(c: Config, s: Link)
    requires ConfigValid(c) && Fresh(s)
    ensures Explained(c, s)
  {
    assert Echoes(c, []) == [];
    assert Sound(c, s, Quiet, []);
  }

  lemma ExplainedMeans(c: Config, r: Link)
    requires ConfigValid(c) && Explained(c, r)
    ensures |r.delivered| <= |r.accepted| <= |r.delivered| + 2
    ensures r.delivered == Echoes(c, r.accepted[..|r.delivered|])
    ensures r.tx.TxIdle? && !r.rx.receiving ==> r.delivered == Echoes(c, r.accepted)
  {
    var p, done :| Sound(c, r, p, done);
    assert r.accepted[..|done|] == done;
  }

  /** A phase other than Quiet has at least one tick to go, and none has more than a frame and a half
      period. */
  /** The numbers in a phase are in range. */
  predicate Placed(c: Config, p: Phase) {
    match p
    case Quiet => true
    case Within(_, j, o) => j <= Length(c) && o < Period(c)
    case Tail(_, e) => e < Half(c)
    case Overlap(_, _, o, e) => o < e < Half(c)
    case Late(_, o) => o < Half(c)
  }

  lemma SoundPlaced(c: Config, s: Link, p: Phase, done: seq<Byte>)
    requires ConfigValid(c) && Sound(c, s, p, done)
    ensures Placed(c, p)
  {
  }

  lemma PlacedBounds(c: Config, p: Phase)
    requires Placed(c, p)
    ensures Remaining(c, p) >= (if p.Quiet? then 0 else 1)
    ensures Remaining(c, p) <= Period(c) * (Length(c) + 1) + Half(c)
  {
    match p {
      case Within(_, j, o) => BitsLeft(Period(c), Length(c) + 1, j);
      case _ => BitsLeft(Period(c), Length(c) + 1, 0);
    }
  }

  lemma RemainingBounds(c: Config, s: Link, p: Phase, done: seq<Byte>)
    requires ConfigValid(c) && Sound(c, s, p, done)
    ensures Remaining(c, p) >= (if p.Quiet? then 0 else 1)
    ensures Remaining(c, p) <= Period(c) * (Length(c) + 1) + Half(c)
  {
    SoundPlaced(c, s, p, done);
    PlacedBounds(c, p);
  }

  lemma BitsLeft(period: nat, n: nat, j: nat)
    requires j < n
    ensures period <= period * (n - j) <= period * n
  {
    MulMono(period, 1, n - j);
    MulMono(period, n - j, n);
  }

  /** n ticks with nothing to send. */
  function Silence(c: Config, s: Link, n: nat): Link
    requires ConfigValid(c)
  {
    if n == 0 then s else LinkStep(c, Silence(c, s, n - 1), [])
  }

  lemma {:induction false} Drains(c: Config, s: Link, p: Phase, done: seq<Byte>, n: nat)
    returns (p': Phase, done': seq<Byte>)
    requires ConfigValid(c) && Sound(c, s, p, done)
    ensures Sound(c, Silence(c, s, n), p', done')
    ensures Remaining(c, p') <= 0 || Remaining(c, p') == Remaining(c, p) - n
  {
    if n == 0 {
      p', done' := p, done;
    } else {
      var q, d := Drains(c, s, p, done, n - 1);
      RemainingBounds(c, Silence(c, s, n - 1), q, d);
      p', done' := StepPhase(c, Silence(c, s, n - 1), q, d, []);
    }
  }

  /** Nothing stays in the line: once the source has been silent for a frame and half a bit period,
      everything accepted has been delivered. */
  lemma LoopbackCompletes(c: Config, s: Link, offers: seq<seq<Byte>>, n: nat)
    requires ConfigValid(c) && OffersValid(offers) && Fresh(s)
    requires n >= Period(c) * (Length(c) + 1) + Half(c)
    ensures var r := Silence(c, LinkRun(c, s, offers), n);
            r.accepted == LinkRun(c, s, offers).accepted && r.delivered == Echoes(c, r.accepted)
  {
    FreshExplained(c, s);
    RunExplained(c, s, offers);
    var r := LinkRun(c, s, offers);
    var p, done :| Sound(c, r, p, done);
    RemainingBounds(c, r, p, done);
    var p', done' := Drains(c, r, p, done, n);
    RemainingBounds(c, Silence(c, r, n), p', done');
    SilenceAccepts(c, r, n);
  }

  lemma {:induction false} SilenceAccepts(c: Config, s: Link, n: nat)
    requires ConfigValid(c)
    ensures Silence(c, s, n).accepted == s.accepted
  {
    if n > 0 {
      SilenceAccepts(c, s, n - 1);
    }
  }

  /** Seven data bits and a parity bit that is always low: the parity slot then carries the eighth
      data bit. */
  predicate SpaceParity(c: Config) {
    c.nbits == 7 && c.parity && c.fixed && !c.even
  }

  /** With eight data bits the echo is the byte itself, and with fewer the receiver reports parity and
      stop bits as data: every byte comes back unchanged exactly for eight data bits, or for seven
      with space parity. */
  lemma EchoIsIdentityIff(c: Config)
    requires ConfigValid(c)
    ensures (forall ch: Byte :: Echo(c, ch) == ch) <==> c.nbits == 8 || SpaceParity(c)
  {
    if c.nbits == 8 || SpaceParity(c) {
      forall ch: Byte ensures Echo(c, ch) == ch {
        EchoSame(c, ch);
      }
    } else {
      var ch := EchoChanges(c);
    }
  }

  lemma EchoAt(c: Config, ch: Byte, i: nat)
    requires ConfigValid(c) && i < 8
    ensures Echo(c, ch)[i] == (i < Length(c) && Frame(c, ch)[i + 1])
    ensures Plain(c, ch)[i + 1] == (i >= Payload(c) || ch[i])
  {
    assert Plain(c, ch)[i + 1] == (i + 1 >= Payload(c) + 1 || ch[i + 1 - 1]);
  }

  lemma EchoSame(c: Config, ch: Byte)
    requires ConfigValid(c) && (c.nbits == 8 || SpaceParity(c))
    ensures Echo(c, ch) == ch
  {
    forall i | 0 <= i < 8 ensures Echo(c, ch)[i] == ch[i] {
      EchoAt(c, ch, i);
    }
  }

  lemma EchoChanges(c: Config) returns (ch: Byte)
    requires ConfigValid(c) && c.nbits < 8 && !SpaceParity(c)
    ensures Echo(c, ch) != ch
  {
    ch := seq(8, _ => false);
    FrameEnds(c, ch);
    if Payload(c) < 8 {
      EchoAt(c, ch, Payload(c));
    } else if c.even {
      ParityOfZero(c, ch);
      EchoAt(c, ch, 7);
    } else {
      ch := ch[0 := true];
      ParityOfOne(c, ch);
      EchoAt(c, ch, 7);
    }
  }

  lemma ParityOfZero(c: Config, ch: Byte)
    requires ConfigValid(c) && c.nbits == 7 && c.parity && c.even && ch == seq(8, _ => false)
    ensures Frame(c, ch)[8]
  {
    PlainBits(c, ch);
  }

  lemma ParityOfOne(c: Config, ch: Byte)
    requires ConfigValid(c) && c.nbits == 7 && c.parity && !c.fixed && !c.even
    requires ch == seq(8, _ => false)[0 := true]
    ensures Frame(c, ch)[8]
  {
    PlainBits(c, ch);
  }

  lemma PlainBits(c: Config, ch: Byte)
    requires ConfigValid(c) && Payload(c) == 8
    ensures Plain(c, ch)[1..9] == ch
    ensures Xor8(Plain(c, ch)) ==
            (((ch[0] != ch[4]) != (ch[2] != ch[6])) != ((ch[1] != ch[5]) != (ch[3] != ch[7])))
  {
    var d := Plain(c, ch);
    forall i | 0 <= i < 8 ensures d[i + 1] == ch[i] {
      EchoAt(c, ch, i);
    }
  }
}
