/** The upload half of the FFT protocol: the device of sw/rv32/fftmain.c, the host of sw/host/testfft.cpp,
    and a network between them that loses, repeats, delays and reorders packets as it likes. */
module FftProtocol {
  import opened FftWire

  type Data = s: seq<Word> | |s| == FftSize witness seq(FftSize, _ => 0)

  // ---------------------------------------------------------------------------------------------
  // The device

  datatype Direction = Input | Output

  /** A word written to the FFT, and where. */
  datatype Write = Write(posn: nat, word: Word)

  /** The globals of fftmain.c, and what has been written to the FFT since it was last reset. */
  datatype Device = Device(id: int, ip: nat, port: nat, posn: nat, direction: Direction, writes: seq<Write>)

  datatype Reaction = Reaction(device: Device, sent: seq<seq<Byte>>)

  function Boot(left: seq<Write>): Device {
    Device(-1, 0, 0, 0, Input, left)
  }

  /** A packet that says where the device is, with these words after it. */
  function Status(d: Device, words: seq<Word>): seq<Byte> {
    Packet(d.id % 0x1_0000, d.posn % 0x1_0000, words)
  }

  function Writes(posn: nat, words: seq<Word>): (w: seq<Write>)
    ensures |w| == |words|
  {
    seq(|words|, k requires 0 <= k < |words| => Write(posn + k, words[k]))
  }

  /** A packet arrives; `past` lies behind it in its buffer, and `result` is what the FFT would read out. */
  function Receive(d: Device, ip: nat, port: nat, m: seq<Byte>, past: Past, result: seq<Word>): Reaction
    requires |m| >= 4
  {
    match d.direction
    case Input =>
      if Id(m) == d.id && ip == d.ip && port == d.port && Posn(m) == d.posn then
        var words := WordsOf(m, past);
        var e := d.(writes := d.writes + Writes(d.posn, words), posn := d.posn + |words|);
        Reaction(e.(direction := if e.posn == FftSize then Output else Input), [Status(e, [])])
      else if Id(m) != d.id || port != d.port then
        var e := Device(Id(m), ip, port, 0, Input, []);
        Reaction(e, [Status(e, [])])
      else Reaction(d, [Status(d, [])])
    case Output =>
      if Id(m) == d.id && ip == d.ip then
        var e := if Posn(m) >= 2 * FftSize then d.(direction := Input, writes := []) else d;
        Reaction(if Posn(m) > d.posn then e.(posn := Posn(m)) else e,
                 if Posn(m) >= 2 * FftSize then [] else [Status(d, result)])
      else if Id(m) != d.id then
        var e := d.(id := Id(m), ip := ip, posn := 0, direction := Input, writes := []);
        Reaction(e, [Status(e, [])])
      else Reaction(d, [])
  }

  /** Nothing has happened for a while. */
  function Timer(d: Device, result: seq<Word>): seq<seq<Byte>> {
    match d.direction
    case Input => if d.posn > 0 then [Status(d, [])] else []
    case Output => if d.posn < 2 * FftSize then [Status(d, result)] else []
  }

  // ---------------------------------------------------------------------------------------------
  // Both ends, and what is between them

  const HostIp: nat := 0xc0a8_0f01
  const HostPort: nat := 6784

  /** Where runfft_test is: not running, about to send, waiting for an answer, or past the upload. */
  datatype Host = Idle | Ready(posn: nat) | Waiting(posn: nat) | Fetching

  /** A call of runfft_test: its id and its data. */
  datatype Transfer = Transfer(id: Half, data: Data)

  /** All packets ever sent stay in the network; `log` has every transfer so far, `lastId` is the host's counter, and
      `full` has the ids of the transfers the device has ever held completely. */
  datatype World = World(host: Host, device: Device, toDevice: set<seq<Byte>>, toHost: set<seq<Byte>>,
                         log: seq<Transfer>, lastId: Half, full: set<int>)

  /** The counter starts over with every host process. */
  const FirstId: Half := 7

  function NextId(w: World): Half {
    (w.lastId + 1) % 0x1_0000
  }

  /** The latest transfer with this id, or -1. */
  function Find(log: seq<Transfer>, id: int): (t: int)
    ensures -1 <= t < |log| && (t >= 0 ==> log[t].id == id)
  {
    if log == [] then -1
    else if log[|log| - 1].id == id then |log| - 1
    else Find(log[..|log| - 1], id)
  }

  /** The words the host sends at this position; it would send whatever lies past the end of its data. */
  function Part(data: Data, posn: nat): seq<Word> {
    seq(MaxLn, k requires 0 <= k < MaxLn => if posn + k < FftSize then data[posn + k] else 0)
  }

  datatype Event =
    | Start(data: Data)              // a call of runfft_test
    | Send                           // the top of its upload loop
    | Timeout                        // no answer came
    | Hear(answer: seq<Byte>)        // some answer came
    | Fail                           // the socket failed
    | Leave                          // the upload loop ends
    | Ask(posn: Half)                // a request of the download loop
    | Finish                         // runfft_test returns
    | Reboot                         // the host process starts again
    | Deliver(packet: seq<Byte>, past: Past, result: seq<Word>)
    | Tick(result: seq<Word>)
    | Restart(left: seq<Write>)

  function ToSet(ms: seq<seq<Byte>>): set<seq<Byte>> {
    set m <- ms
  }

  function Current(w: World): Half
    requires w.log != []
  {
    w.log[|w.log| - 1].id
  }

  /** What happens to the position when an answer comes. */
  function Heard(id: Half, posn: nat, m: seq<Byte>): nat
    requires |m| >= 4
  {
    if Id(m) != id then 0 else if Posn(m) > posn then Posn(m) else posn
  }

  function HostStep(w: World, e: Event): World
    requires w.host.Idle? || w.log != []
  {
    match e
    case Start(data) =>
      if w.host.Idle? then w.(host := Ready(0), lastId := NextId(w), log := w.log + [Transfer(NextId(w), data)]) else w
    case Reboot => w.(host := Idle, lastId := FirstId)
    case Send =>
      if w.host.Ready? && w.host.posn < FftSize then
        w.(host := Waiting(w.host.posn),
           toDevice := w.toDevice + {Packet(Current(w), w.host.posn, Part(w.log[|w.log| - 1].data, w.host.posn))})
      else w
    case Timeout => if w.host.Waiting? then w.(host := Ready(w.host.posn)) else w
    case Hear(m) =>
      if w.host.Waiting? && m in w.toHost && |m| >= 4 then w.(host := Ready(Heard(Current(w), w.host.posn, m))) else w
    case Fail => if w.host.Waiting? then w.(host := Idle) else w
    case Leave => if w.host.Ready? && w.host.posn >= FftSize then w.(host := Fetching) else w
    case Ask(posn) =>
      if w.host.Fetching? && posn >= FftSize then w.(toDevice := w.toDevice + {Packet(Current(w), posn, [])}) else w
    case Finish => if w.host.Fetching? then w.(host := Idle) else w
    case _ => w
  }

  function DeviceStep(w: World, e: Event): World {
    match e
    case Deliver(m, past, result) =>
      if m in w.toDevice && |m| >= 4 then
        var r := Receive(w.device, HostIp, HostPort, m, past, result);
        w.(device := r.device, toHost := w.toHost + ToSet(r.sent),
           full := if r.device.direction.Output? && r.device.posn == FftSize then w.full + {r.device.id} else w.full)
      else w
    case Tick(result) => w.(toHost := w.toHost + ToSet(Timer(w.device, result)))
    case Restart(left) => w.(device := Boot(left))
    case _ => w
  }

  function Step(w: World, e: Event): World {
    if w.host.Idle? || w.log != [] then DeviceStep(HostStep(w, e), e) else w
  }

  function Begin(left: seq<Write>): World {
    World(Idle, Boot(left), {}, {}, [], FirstId, {})
  }

  // ---------------------------------------------------------------------------------------------
  // What every step keeps

  predicate Uploading(w: World) {
    w.host.Ready? || w.host.Waiting?
  }

  /** This id is one of the transfers so far. */
  predicate Known(log: seq<Transfer>, id: int) {
    0 <= id < 0x1_0000 && Find(log, id) >= 0
  }

  /** The transfer that is being uploaded. */
  predicate Latest(log: seq<Transfer>, up: bool, id: Half) {
    up && Find(log, id) == |log| - 1
  }

  predicate OnGrid(posn: nat) {
    posn % MaxLn == 0 && posn < FftSize
  }

  predicate HostPacket(log: seq<Transfer>, up: bool, m: seq<Byte>) {
    && |m| >= 4 && |m| % 4 == 0 && Known(log, Id(m))
    && (if |m| == 4 then Posn(m) >= FftSize && !Latest(log, up, Id(m))
        else OnGrid(Posn(m)) && Words(m) == log[Find(log, Id(m))].data[Posn(m)..Posn(m) + MaxLn])
  }

  predicate DevicePacket(log: seq<Transfer>, up: bool, full: set<int>, m: seq<Byte>) {
    && |m| >= 4 && Known(log, Id(m))
    && (if Posn(m) < FftSize then OnGrid(Posn(m)) else Id(m) in full && (Latest(log, up, Id(m)) ==> Posn(m) == FftSize))
  }

  /** The first words of the data, each in its place. */
  function First(data: Data, n: nat): seq<Write>
    requires n <= FftSize
  {
    Writes(0, data[..n])
  }

  predicate DeviceOk(log: seq<Transfer>, up: bool, full: set<int>, d: Device) {
    if d.id == -1 then d.direction.Input? && d.posn == 0
    else
      && Known(log, d.id) && d.ip == HostIp && d.port == HostPort && d.posn < 0x1_0000
      && (if d.posn < FftSize then d.direction.Input? && OnGrid(d.posn) && d.writes == First(log[Find(log, d.id)].data, d.posn)
          else
            && d.id in full && (Latest(log, up, d.id) ==> d.posn == FftSize && d.direction.Output?)
            && (if d.direction.Output? then d.writes == First(log[Find(log, d.id)].data, FftSize) else d.posn >= 2 * FftSize))
  }

  predicate HostOk(w: World) {
    match w.host
    case Idle => true
    case Ready(p) => w.log != [] && (OnGrid(p) || (p == FftSize && Current(w) in w.full))
    case Waiting(p) => w.log != [] && OnGrid(p)
    case Fetching => w.log != [] && Current(w) in w.full
  }

  ghost predicate Inv(w: World) {
    && HostOk(w)
    && DeviceOk(w.log, Uploading(w), w.full, w.device)
    && (forall m <- w.toDevice :: HostPacket(w.log, Uploading(w), m))
    && (forall m <- w.toHost :: DevicePacket(w.log, Uploading(w), w.full, m))
  }

  lemma Stores(data: Data, d: Device, m: seq<Byte>, past: Past)
    requires OnGrid(d.posn) && d.writes == First(data, d.posn)
    requires |m| >= 4 && |m| % 4 == 0 && Words(m) == data[d.posn..d.posn + MaxLn]
    ensures d.writes + Writes(d.posn, WordsOf(m, past)) == First(data, d.posn + MaxLn)
    ensures d.posn + MaxLn <= FftSize && (d.posn + MaxLn) % MaxLn == 0
  {
    WholeWords(m, past);
  }

  lemma StatusReads(d: Device, words: seq<Word>)
    requires 0 <= d.id < 0x1_0000 && d.posn < 0x1_0000
    ensures var m := Status(d, words); |m| >= 4 && Id(m) == d.id && Posn(m) == d.posn
  {
    PacketReads(d.id, d.posn, words);
  }

  /** A device in order sends packets in order. */
  lemma StatusOk(log: seq<Transfer>, up: bool, full: set<int>, d: Device, words: seq<Word>)
    requires DeviceOk(log, up, full, d) && d.id != -1
    ensures DevicePacket(log, up, full, Status(d, words))
  {
    StatusReads(d, words);
  }

  /** The ids held completely, after a device has reacted. */
  function Fuller(full: set<int>, d: Device): set<int> {
    if d.direction.Output? && d.posn == FftSize then full + {d.id} else full
  }

  lemma ReceiveInput(log: seq<Transfer>, up: bool, full: set<int>, d: Device, m: seq<Byte>, past: Past, result: seq<Word>)
    requires DeviceOk(log, up, full, d) && HostPacket(log, up, m) && d.direction.Input?
    ensures var r := Receive(d, HostIp, HostPort, m, past, result);
            && r.device.id != -1 && DeviceOk(log, up, Fuller(full, r.device), r.device)
            && r.sent == [Status(r.device, [])]
  {
    if Id(m) == d.id && HostIp == d.ip && HostPort == d.port && Posn(m) == d.posn {
      if d.posn < FftSize {
        Stores(log[Find(log, d.id)].data, d, m, past);
      } else {
        assert d.writes + Writes(d.posn, WordsOf(m, past)) == d.writes;
      }
    } else {
      assert First(log[Find(log, Id(m))].data, 0) == [];
    }
  }

  lemma ReceiveOutput(log: seq<Transfer>, up: bool, full: set<int>, d: Device, m: seq<Byte>, past: Past, result: seq<Word>)
    requires DeviceOk(log, up, full, d) && HostPacket(log, up, m) && d.direction.Output?
    ensures var r := Receive(d, HostIp, HostPort, m, past, result);
            && r.device.id != -1 && DeviceOk(log, up, full, r.device) && Fuller(full, r.device) == full
            && (r.sent == [] || r.sent == [Status(d, result)] || r.sent == [Status(r.device, [])])
  {
    if Id(m) != d.id {
      assert First(log[Find(log, Id(m))].data, 0) == [];
    }
  }

  /** Whatever packet of the host reaches it, the device stays in order, and so does what it sends. */
  lemma ReceiveKeeps(log: seq<Transfer>, up: bool, full: set<int>, d: Device, m: seq<Byte>, past: Past, result: seq<Word>)
    requires DeviceOk(log, up, full, d) && HostPacket(log, up, m)
    ensures var r := Receive(d, HostIp, HostPort, m, past, result);
            && DeviceOk(log, up, Fuller(full, r.device), r.device)
            && forall s <- r.sent :: DevicePacket(log, up, Fuller(full, r.device), s)
  {
    var r := Receive(d, HostIp, HostPort, m, past, result);
    if d.direction.Input? {
      ReceiveInput(log, up, full, d, m, past, result);
    } else {
      ReceiveOutput(log, up, full, d, m, past, result);
      StatusOk(log, up, full, d, result);
    }
    StatusOk(log, up, Fuller(full, r.device), r.device, []);
  }

  /** The log is the same, or has one more transfer, with an id of its own. */
  predicate Grows(log: seq<Transfer>, more: seq<Transfer>) {
    more == log || (|more| == |log| + 1 && more[..|log|] == log && Find(log, more[|log|].id) < 0)
  }

  lemma FindGrows(log: seq<Transfer>, more: seq<Transfer>, id: int)
    requires Grows(log, more) && Find(log, id) >= 0
    ensures Find(more, id) == Find(log, id) && more[Find(log, id)] == log[Find(log, id)]
  {
  }

  /** More transfers, and more of them held, take nothing away. */
  lemma PacketGrows(log: seq<Transfer>, up: bool, full: set<int>, m: seq<Byte>, more: seq<Transfer>, up': bool, full': set<int>)
    requires DevicePacket(log, up, full, m) && full <= full' && Grows(log, more)
    requires if up' then (up && more == log) || |more| == |log| + 1 else true
    ensures DevicePacket(more, up', full', m)
  {
    FindGrows(log, more, Id(m));
  }

  lemma HostPacketGrows(log: seq<Transfer>, up: bool, m: seq<Byte>, more: seq<Transfer>, up': bool)
    requires HostPacket(log, up, m) && Grows(log, more)
    requires if up' then (up && more == log) || |more| == |log| + 1 else true
    ensures HostPacket(more, up', m)
  {
    FindGrows(log, more, Id(m));
  }

  lemma DeviceGrows(log: seq<Transfer>, up: bool, full: set<int>, d: Device, more: seq<Transfer>, up': bool)
    requires DeviceOk(log, up, full, d) && Grows(log, more)
    requires if up' then (up && more == log) || |more| == |log| + 1 else true
    ensures DeviceOk(more, up', full, d)
  {
    if d.id != -1 {
      FindGrows(log, more, d.id);
    }
  }

  lemma DeliverKeeps(w: World, m: seq<Byte>, past: Past, result: seq<Word>)
    requires Inv(w)
    ensures Inv(DeviceStep(w, Deliver(m, past, result)))
  {
    if m in w.toDevice && |m| >= 4 {
      var up := Uploading(w);
      var r := Receive(w.device, HostIp, HostPort, m, past, result);
      ReceiveKeeps(w.log, up, w.full, w.device, m, past, result);
      var v := DeviceStep(w, Deliver(m, past, result));
      assert v.full == Fuller(w.full, r.device);
      forall s <- v.toHost ensures DevicePacket(v.log, up, v.full, s) {
        if s in w.toHost {
          PacketGrows(w.log, up, w.full, s, w.log, up, v.full);
        } else {
          assert s in r.sent;
        }
      }
    }
  }

  lemma TickKeeps(w: World, result: seq<Word>)
    requires Inv(w)
    ensures Inv(DeviceStep(w, Tick(result)))
  {
    var v := DeviceStep(w, Tick(result));
    forall s <- v.toHost ensures DevicePacket(v.log, Uploading(v), v.full, s) {
      if s !in w.toHost {
        assert s in Timer(w.device, result);
        StatusOk(w.log, Uploading(w), w.full, w.device, []);
        StatusOk(w.log, Uploading(w), w.full, w.device, result);
      }
    }
  }

  lemma StartKeeps(w: World, data: Data)
    requires Inv(w) && Find(w.log, NextId(w)) < 0
    ensures Inv(HostStep(w, Start(data)))
  {
    if w.host.Idle? {
      var v := HostStep(w, Start(data));
      DeviceGrows(w.log, false, w.full, w.device, v.log, true);
      forall m <- v.toDevice ensures HostPacket(v.log, true, m) {
        HostPacketGrows(w.log, false, m, v.log, true);
      }
      forall m <- v.toHost ensures DevicePacket(v.log, true, v.full, m) {
        PacketGrows(w.log, false, w.full, m, v.log, true, v.full);
      }
    }
  }

  lemma SendKeeps(w: World)
    requires Inv(w) && w.host.Ready? && w.host.posn < FftSize
    ensures Inv(HostStep(w, Send))
  {
    var t, p := |w.log| - 1, w.host.posn;
    PartIs(w.log[t].data, p);
    PacketReads(Current(w), p, Part(w.log[t].data, p));
  }

  /** A position on the grid leaves a whole packet's worth of data. */
  lemma PartIs(data: Data, p: nat)
    requires OnGrid(p)
    ensures p + MaxLn <= FftSize && Part(data, p) == data[p..p + MaxLn]
  {
  }

  lemma HearKeeps(w: World, m: seq<Byte>)
    requires Inv(w) && w.host.Waiting? && m in w.toHost && |m| >= 4
    ensures Inv(HostStep(w, Hear(m)))
  {
    assert DevicePacket(w.log, true, w.full, m);
  }

  lemma AskKeeps(w: World, posn: Half)
    requires Inv(w) && w.host.Fetching? && posn >= FftSize
    ensures Inv(HostStep(w, Ask(posn)))
  {
    PacketReads(Current(w), posn, []);
  }

  /** The host stops uploading. */
  lemma StopKeeps(w: World, host: Host)
    requires Inv(w) && (host.Idle? || (host.Fetching? && w.log != [] && Current(w) in w.full))
    ensures Inv(w.(host := host))
  {
    var v := w.(host := host);
    DeviceGrows(w.log, Uploading(w), w.full, w.device, w.log, false);
    forall m <- v.toDevice ensures HostPacket(v.log, false, m) {
      HostPacketGrows(w.log, Uploading(w), m, w.log, false);
    }
    forall m <- v.toHost ensures DevicePacket(v.log, false, v.full, m) {
      PacketGrows(w.log, Uploading(w), w.full, m, w.log, false, w.full);
    }
  }

  lemma RebootKeeps(w: World)
    requires Inv(w) && w.host.Idle?
    ensures Inv(w.(lastId := FirstId))
  {
  }

  /** Every step keeps the invariant, as long as no transfer starts with an id already used. */
  lemma StepKeeps(w: World, e: Event)
    requires Inv(w) && (e.Start? && w.host.Idle? ==> Find(w.log, NextId(w)) < 0)
    ensures Inv(Step(w, e))
  {
    match e {
      case Start(data) => if w.host.Idle? { StartKeeps(w, data); }
      case Send => if w.host.Ready? && w.host.posn < FftSize { SendKeeps(w); }
      case Hear(m) => if w.host.Waiting? && m in w.toHost && |m| >= 4 { HearKeeps(w, m); }
      case Fail => if w.host.Waiting? { StopKeeps(w, Idle); }
      case Leave => if w.host.Ready? && w.host.posn >= FftSize { StopKeeps(w, Fetching); }
      case Ask(posn) => if w.host.Fetching? && posn >= FftSize { AskKeeps(w, posn); }
      case Finish => if w.host.Fetching? { StopKeeps(w, Idle); }
      case Reboot => StopKeeps(w, Idle); RebootKeeps(w.(host := Idle));
      case Deliver(m, past, result) => DeliverKeeps(w, m, past, result);
      case Tick(result) => TickKeeps(w, result);
      case _ =>
    }
  }
}
