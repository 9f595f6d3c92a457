/** DBLUARTSIM as the object it is: its fields are updated in place on every tick, and one tick is one
    step of the transmitter and one of the receiver of the serial line machine. */
module UartSim {
  import opened Arith
  import opened UartLine

  class DblUart {
    var setup: nat
    var config: Config

    var rxReceiving: bool
    var rxBaudCounter: int
    var rxBusy: int
    var rxData: Register
    var rxChange: int
    var lastTx: bool

    var txSending: bool
    var txBaudCounter: int
    var txBusy: int
    var txData: Register

    var waiting: seq<Byte>   // m_rxbuf from m_rxpos on
    var reported: seq<Byte>  // everything handed to received()

    ghost predicate Valid()
      reads this
    {
      config == Setup(setup)
    }

    function Transmitter(): Tx
      reads this`txSending, this`txBaudCounter, this`txBusy, this`txData
    {
      if txSending then TxData(txBaudCounter, txBusy, txData) else TxIdle
    }

    function Receiver(): Rx
      reads this`rxReceiving, this`rxBaudCounter, this`rxBusy, this`rxData, this`rxChange, this`lastTx
    {
      Rx(rxReceiving, rxBaudCounter, rxBusy, rxData, rxChange, lastTx)
    }

    /** Eight data bits, no parity, one stop bit, 25 clocks a bit, and an idle line. */
    constructor ()
      ensures Valid() && config == Config(25, 8, false, false, false, 1)
      ensures Transmitter() == TxIdle && !Receiver().receiving && waiting == [] && reported == []
    {
      setup, config := 25, Setup(25);
      rxReceiving, rxBaudCounter, txSending, txBaudCounter := false, 0, false, 0;
      rxBusy, rxChange, lastTx, txBusy := 0, 0, true, 0;
      rxData, txData := seq(32, _ => false), seq(32, _ => false);
      waiting, reported := [], [];
    }

    method Configure(isetup: nat)
      requires Valid()
      modifies this`setup, this`config
      ensures Valid() && setup == isetup
    {
      if isetup != setup {
        setup, config := isetup, Setup(isetup);
      }
    }

    /** The next byte to send, if there is one: the buffer is filled from what has arrived only when
        it has run out. */
    method Next(arrived: seq<Byte>) returns (next: seq<Byte>)
      modifies this`waiting
      ensures var all := if old(waiting) == [] then arrived else old(waiting);
              next + waiting == all && |next| == if all == [] then 0 else 1
    {
      if waiting == [] {
        waiting := arrived;
      }
      if waiting == [] {
        return [];
      }
      next := waiting[..1];
      waiting := waiting[1..];
    }

    method TickReceiver(line: bool)
      requires ConfigValid(config)
      modifies this`rxReceiving, this`rxBaudCounter, this`rxBusy, this`rxData, this`rxChange, this`lastTx,
               this`reported
      ensures Receiver() == RxStep(config, old(Receiver()), line).rx
      ensures reported == old(reported) + RxStep(config, old(Receiver()), line).out
    {
      if !line && lastTx {
        rxChange := 0;
      } else {
        rxChange := rxChange + 1;
      }
      lastTx := line;

      if !rxReceiving {
        if !line {
          rxReceiving := true;
          rxBaudCounter := config.baud + config.baud / 2 - 1;
          rxBaudCounter := rxBaudCounter - rxChange;
          rxBusy := 0;
          rxData := seq(32, _ => false);
        }
      } else if rxBaudCounter <= 0 {
        if rxBusy >= Pow2(Length(config) - 1) {
          rxReceiving := false;
          reported := reported + [Extract(config, rxData)];
        } else {
          rxBusy := 2 * rxBusy + 1;
          rxData := rxData[1..] + [line];
        }
        rxBaudCounter := config.baud - 1;
      } else {
        rxBaudCounter := rxBaudCounter - 1;
      }
    }

    method LoadFrame(ch: Byte)
      requires ConfigValid(config)
      modifies this`txData
      ensures txData == Frame(config, ch)
    {
      txData := Plain(config, ch);
      if config.parity {
        var p := ParityBit(config, txData);
        txData := txData[Payload(config) := txData[Payload(config)] || p];
      }
    }

    method TickTransmitter(arrived: seq<Byte>) returns (line: bool, ghost next: seq<Byte>)
      requires ConfigValid(config)
      modifies this`txSending, this`txBaudCounter, this`txBusy, this`txData, this`waiting
      ensures |next| <= 1
      ensures Sent(Transmitter(), line) == TxStep(config, old(Transmitter()), next)
      ensures next + waiting == if old(txSending) || old(waiting) != [] then old(waiting) else arrived
      ensures next == [] ==> old(txSending) || waiting == []
    {
      line, next := true, [];
      if !txSending {
        var n := Next(arrived);
        next := n;
        if n != [] {
          LoadFrame(n[0]);
          txBusy := Pow2(Length(config) + 1) - 1;
          txSending := true;
          line := false;
          txBaudCounter := config.baud - 1;
        }
      } else if txBaudCounter <= 0 {
        txData := Shift(txData);
        txBusy := txBusy / 2;
        if txBusy == 0 {
          txSending := false;
        } else {
          txBaudCounter := config.baud - 1;
        }
        line := txData[0];
      } else {
        txBaudCounter := txBaudCounter - 1;
        line := txData[0];
      }
    }

    /** One tick: the receiver takes one step on the line coming in, and the transmitter one step on
        the next waiting byte; the tick answers the line going out.  A byte leaves the buffer only
        when the transmitter takes it. */
    method Tick(iTx: bool, arrived: seq<Byte>) returns (oRx: bool, ghost next: seq<Byte>)
      requires Valid()
      modifies this
      ensures Valid() && config == old(config) && setup == old(setup) && |next| <= 1
      ensures Receiver() == RxStep(config, old(Receiver()), iTx).rx
      ensures reported == old(reported) + RxStep(config, old(Receiver()), iTx).out
      ensures Sent(Transmitter(), oRx) == TxStep(config, old(Transmitter()), next)
      ensures next + waiting == if old(txSending) || old(waiting) != [] then old(waiting) else arrived
      ensures next == [] ==> old(txSending) || waiting == []
    {
      TickReceiver(iTx);
      oRx, next := TickTransmitter(arrived);
    }
  }

  /** With eight data bits the echo of a sequence is the sequence. */
  lemma {:induction false} EchoesSame(c: Config, chs: seq<Byte>)
    requires ConfigValid(c) && (c.nbits == 8 || SpaceParity(c))
    ensures Echoes(c, chs) == chs
  {
    if chs != [] {
      EchoSame(c, chs[|chs| - 1]);
      EchoesSame(c, chs[..|chs| - 1]);
    }
  }

  /** Two of these objects wired back to back, `a` sending and `b` receiving.  Run for any number of
      ticks, with any bytes waiting at any times, `b` has reported in order exactly the bytes `a` took
      from its buffer, short of the last two at most; and all of them when both are idle. */
  method Loopback(a: DblUart, b: DblUart, arrivals: seq<seq<Byte>>) returns (ghost taken: seq<Byte>)
    requires a != b && a.Valid() && b.Valid() && a.config == b.config
    requires Fresh(Link(a.Transmitter(), b.Receiver(), [], [])) && b.reported == []
    requires a.config.nbits == 8
    modifies a, b
    ensures |b.reported| <= |taken| <= |b.reported| + 2 && b.reported == taken[..|b.reported|]
    ensures !a.txSending && !b.rxReceiving ==> b.reported == taken
  {
    taken := [];
    ghost var offers: seq<seq<Byte>> := [];
    ghost var s0 := Link(a.Transmitter(), b.Receiver(), [], []);
    ghost var c := a.config;
    for i := 0 to |arrivals|
      invariant a.Valid() && b.Valid() && a.config == c && b.config == c
      invariant OffersValid(offers)
      invariant Link(a.Transmitter(), b.Receiver(), taken, b.reported) == LinkRun(c, s0, offers)
    {
      ghost var t := a.Transmitter();
      var line, next := a.Tick(true, arrivals[i]);
      var _, _ := b.Tick(line, []);
      taken := if t.TxIdle? then taken + next else taken;
      assert (offers + [next])[..|offers|] == offers;
      offers := offers + [next];
    }
    LoopbackInOrder(c, s0, offers);
    EchoesSame(c, taken[..|b.reported|]);
    EchoesSame(c, taken);
  }

  function Ones(bits: seq<bool>): nat {
    if bits == [] then 0 else Ones(bits[..|bits| - 1]) + if bits[|bits| - 1] then 1 else 0
  }

  /** Exclusive or of the bits. */
  function Xor(bits: seq<bool>): bool {
    bits != [] && Xor(bits[..|bits| - 1]) != bits[|bits| - 1]
  }

  lemma {:induction false} XorCounts(bits: seq<bool>)
    ensures Xor(bits) <==> Ones(bits) % 2 == 1
  {
    if bits != [] {
      XorCounts(bits[..|bits| - 1]);
    }
  }

  lemma XorLast(bits: seq<bool>, k: nat)
    requires k < |bits|
    ensures Xor(bits[..k + 1]) == (Xor(bits[..k]) != bits[k])
  {
    assert bits[..k + 1][..k] == bits[..k];
  }

  lemma Xor8Counts(ch: Byte)
    ensures Xor(ch) ==
            (((ch[0] != ch[4]) != (ch[2] != ch[6])) != ((ch[1] != ch[5]) != (ch[3] != ch[7])))
  {
    assert ch[..0] == [] && ch[..8] == ch;
    XorLast(ch, 0);
    XorLast(ch, 1);
    XorLast(ch, 2);
    XorLast(ch, 3);
    XorLast(ch, 4);
    XorLast(ch, 5);
    XorLast(ch, 6);
    XorLast(ch, 7);
  }

  /** The parity bit makes the number of ones among data and parity even, or odd when m_evenp is set;
      with fixed parity it is m_evenp itself. */
  lemma ParityCounts(c: Config, ch: Byte)
    requires ConfigValid(c) && c.nbits == 8 && c.parity
    ensures var p := Frame(c, ch)[9];
            if c.fixed then p == c.even else (Ones(ch + [p]) % 2 == 1) == c.even
  {
    var d, p := Plain(c, ch), Frame(c, ch)[9];
    forall i | 0 <= i < 8 ensures d[i + 1] == ch[i] {
      EchoAt(c, ch, i);
    }
    assert d[9] == (9 >= Payload(c) + 1);
    Xor8Counts(ch);
    assert d[1] == ch[0] && d[2] == ch[1] && d[3] == ch[2] && d[4] == ch[3];
    assert d[5] == ch[4] && d[6] == ch[5] && d[7] == ch[6] && d[8] == ch[7];
    assert Xor8(d) == Xor(ch);
    XorCounts(ch + [p]);
    assert (ch + [p])[..8] == ch;
  }

  lemma {:induction false} OnesConcat(a: seq<bool>, b: seq<bool>)
    ensures Ones(a + b) == Ones(a) + Ones(b)
  {
    if b == [] {
      assert a + b == a;
    } else {
      assert (a + b)[..|a + b| - 1] == a + b[..|b| - 1];
      OnesConcat(a, b[..|b| - 1]);
    }
  }

  lemma {:induction false} AllOnes(n: nat)
    ensures Ones(seq(n, _ => true)) == n
  {
    if n > 0 {
      var s := seq(n, _ => true);
      assert s[..n - 1] == seq(n - 1, _ => true);
      AllOnes(n - 1);
    }
  }

  /** With fewer data bits the parity slot is or-ed with the next bit of the byte, and counts that bit and the ones
      above it as well. */
  lemma ShortParity(c: Config, ch: Byte)
    requires ConfigValid(c) && c.nbits < 8 && c.parity
    ensures var n := c.nbits;
            Frame(c, ch)[n + 1] ==
            (ch[n] || if c.fixed then c.even else ((Ones(ch[..n + 1]) + 7 - n) % 2 == 1) != c.even)
  {
    var n, d := c.nbits, Plain(c, ch);
    var e: Byte := ch[..n + 1] + seq(7 - n, _ => true);
    forall i | 0 <= i < 8 ensures d[i + 1] == e[i] {
      EchoAt(c, ch, i);
    }
    FoldsTo(d, e);
    XorCounts(e);
    OnesConcat(ch[..n + 1], seq(7 - n, _ => true));
    AllOnes(7 - n);
    EchoAt(c, ch, n);
  }

  lemma FoldsTo(d: Register, e: Byte)
    requires forall i :: 0 <= i < 8 ==> e[i] == d[i + 1]
    ensures Xor8(d) == Xor(e)
  {
    Xor8Counts(e);
    assert d[0 + 1] == e[0] && d[1 + 1] == e[1] && d[2 + 1] == e[2] && d[3 + 1] == e[3];
    assert d[4 + 1] == e[4] && d[5 + 1] == e[5] && d[6 + 1] == e[6] && d[7 + 1] == e[7];
  }
}
