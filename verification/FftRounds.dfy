/** The FFT upload over a network that delivers everything at once: each packet is answered and the answer
    heard before the next is sent. */
module FftRounds {
  import opened FftWire
  import opened FftProtocol
  import Runs

  /** About to send the next packet. */
  ghost predicate Poised(w: World) {
    Inv(w) && w.host.Ready? && w.host.posn < FftSize
  }

  function NextPacket(w: World): seq<Byte>
    requires w.host.Ready? && w.host.posn < FftSize && w.log != []
  {
    Packet(Current(w), w.host.posn, Part(w.log[|w.log| - 1].data, w.host.posn))
  }

  /** Send, deliver, hear the answer. */
  function Round(w: World, past: Past, result: seq<Word>): World
    requires w.host.Ready? && w.host.posn < FftSize && w.log != []
  {
    var m := NextPacket(w);
    PacketReads(Current(w), w.host.posn, Part(w.log[|w.log| - 1].data, w.host.posn));
    var sent := Receive(w.device, HostIp, HostPort, m, past, result).sent;
    var v := Step(Step(w, Send), Deliver(m, past, result));
    if sent == [] then Step(v, Timeout) else Step(v, Hear(sent[0]))
  }

  /** How the device takes the next packet. */
  lemma Answered(w: World, past: Past, result: seq<Word>)
    requires Poised(w)
    ensures var m := NextPacket(w);
            && |m| >= 4 && HostPacket(w.log, true, m)
            && var r := Receive(w.device, HostIp, HostPort, m, past, result);
            && |r.sent| == 1 && |r.sent[0]| >= 4 && Id(r.sent[0]) == Current(w) && r.device.id == Current(w)
            && Posn(r.sent[0]) == r.device.posn
            && r.device.posn == if w.device.id != Current(w) then 0
                                else if w.device.posn == w.host.posn then w.host.posn + MaxLn
                                else w.device.posn
  {
    var t, p, d := |w.log| - 1, w.host.posn, w.device;
    var m := NextPacket(w);
    PartIs(w.log[t].data, p);
    PacketReads(Current(w), p, Part(w.log[t].data, p));
    var r := Receive(d, HostIp, HostPort, m, past, result);
    if d.direction.Input? {
      ReceiveInput(w.log, true, w.full, d, m, past, result);
      StatusReads(r.device, []);
    } else {
      ReceiveOutput(w.log, true, w.full, d, m, past, result);
      StatusReads(d, result);
      StatusReads(r.device, []);
    }
  }

  lemma RoundSteps(w: World, past: Past, result: seq<Word>)
    requires Poised(w)
    ensures var v := Round(w, past, result);
            var m := NextPacket(w);
            |m| >= 4 &&
            var r := Receive(w.device, HostIp, HostPort, m, past, result);
            && Inv(v) && v.log == w.log && v.device == r.device && |r.sent| == 1 && |r.sent[0]| >= 4
            && v.host == Ready(Heard(Current(w), w.host.posn, r.sent[0]))
  {
    Answered(w, past, result);
    var m := NextPacket(w);
    var r := Receive(w.device, HostIp, HostPort, m, past, result);
    var w1 := Step(w, Send);
    StepKeeps(w, Send);
    Sends(w);
    var w2 := Step(w1, Deliver(m, past, result));
    StepKeeps(w1, Deliver(m, past, result));
    Delivers(w1, m, past, result);
    StepKeeps(w2, Hear(r.sent[0]));
    Hears(w2, r.sent[0]);
  }

  lemma Sends(w: World)
    requires Poised(w)
    ensures var v := Step(w, Send);
            NextPacket(w) in v.toDevice && v.device == w.device && v.log == w.log && v.host == Waiting(w.host.posn)
  {
  }

  lemma Delivers(w: World, m: seq<Byte>, past: Past, result: seq<Word>)
    requires w.host.Waiting? && w.log != [] && m in w.toDevice && |m| >= 4
    ensures var v, r := Step(w, Deliver(m, past, result)), Receive(w.device, HostIp, HostPort, m, past, result);
            v.host == w.host && v.log == w.log && v.device == r.device && forall s <- r.sent :: s in v.toHost
  {
  }

  lemma Hears(w: World, m: seq<Byte>)
    requires w.host.Waiting? && w.log != [] && m in w.toHost && |m| >= 4
    ensures var v := Step(w, Hear(m));
            v.host == Ready(Heard(Current(w), w.host.posn, m)) && v.log == w.log && v.device == w.device
  {
  }

  /** The device has not fallen behind the host. */
  predicate Abreast(w: World)
    requires w.host.Ready? && w.log != []
  {
    w.host.posn == 0 || (w.device.id == Current(w) && w.device.posn >= w.host.posn)
  }

  /** What is left to do. */
  function Distance(w: World): nat
    requires w.host.Ready? && w.host.posn <= FftSize && w.log != []
  {
    2 * (FftSize - w.host.posn) + if w.device.id == Current(w) then 0 else 1
  }

  /** A round with the device abreast gets closer, and keeps it abreast; with the device behind, it
      changes nothing for the host, and leaves the device behind. */
  lemma RoundMoves(w: World, past: Past, result: seq<Word>)
    requires Poised(w)
    ensures var v := Round(w, past, result);
            && Inv(v) && v.host.Ready? && v.log == w.log && v.host.posn <= FftSize && Abreast(v) == Abreast(w)
            && (if Abreast(w) then Distance(v) < Distance(w) else v.host.posn == w.host.posn)
  {
    RoundSteps(w, past, result);
    Answered(w, past, result);
  }

  /** Another round, unless the upload is done. */
  function Onward(w: World, past: Past, result: seq<Word>): World {
    if w.host.Ready? && w.host.posn < FftSize && w.log != [] then Round(w, past, result) else w
  }

  function Rounds(w: World, past: Past, result: seq<Word>, n: nat): World {
    Runs.Iterate((v: World) => Onward(v, past, result), w, n)
  }

  predicate Done(w: World) {
    w.host.Ready? && w.host.posn >= FftSize
  }

  ghost predicate Uploads(w: World, abreast: bool) {
    Inv(w) && w.host.Ready? && w.log != [] && w.host.posn <= FftSize && Abreast(w) == abreast
  }

  lemma OnwardMoves(w: World, past: Past, result: seq<Word>)
    requires Uploads(w, true) && !Done(w)
    ensures Uploads(Onward(w, past, result), true) && Distance(Onward(w, past, result)) < Distance(w)
  {
    RoundMoves(w, past, result);
  }

  lemma OnwardStalls(w: World, past: Past, result: seq<Word>, host: Host)
    requires Uploads(w, false) && w.host == host && !Done(w)
    ensures Uploads(Onward(w, past, result), false) && Onward(w, past, result).host == host
  {
    RoundMoves(w, past, result);
  }

  lemma Completes(w: World, past: Past, result: seq<Word>)
    requires Uploads(w, true)
    ensures exists n: nat :: Done(Rounds(w, past, result, n))
  {
    var step := (v: World) => Onward(v, past, result);
    var inv := (v: World) => Uploads(v, true);
    var distance := (v: World) => if v.host.Ready? && v.host.posn <= FftSize && v.log != [] then Distance(v) else 0;
    forall v: World | inv(v) && !Done(v) ensures inv(step(v)) && distance(step(v)) < distance(v) {
      OnwardMoves(v, past, result);
    }
    Runs.IterateReaches(step, inv, Done, distance, w);
    var n: nat :| Done(Runs.Iterate(step, w, n));
    assert Done(Rounds(w, past, result, n));
  }

  lemma Stalls(w: World, past: Past, result: seq<Word>, n: nat)
    requires Uploads(w, false) && !Done(w)
    ensures Rounds(w, past, result, n).host == w.host
  {
    var step := (v: World) => Onward(v, past, result);
    var inv := (v: World) => Uploads(v, false) && v.host == w.host;
    forall v: World | inv(v) ensures inv(step(v)) {
      OnwardStalls(v, past, result, w.host);
    }
    Runs.IterateKeeps(step, inv, w, n);
  }

  /** Over a network that loses nothing and repeats nothing, an upload completes if and only if the
      device has not fallen behind the host.  It falls behind when it restarts part way: it answers
      position 0 for ever, and the host never goes back. */
  lemma CompletesIff(w: World, past: Past, result: seq<Word>)
    requires Poised(w)
    ensures (exists n: nat :: Done(Rounds(w, past, result, n))) <==> Abreast(w)
  {
    if Abreast(w) {
      Completes(w, past, result);
    } else {
      forall n: nat ensures !Done(Rounds(w, past, result, n)) {
        Stalls(w, past, result, n);
      }
    }
  }

  /** A restart in the middle of an upload is such a case. */
  lemma RestartStalls(w: World, left: seq<Write>, past: Past, result: seq<Word>, n: nat)
    requires Poised(w) && w.host.posn > 0
    ensures Rounds(Step(w, Restart(left)), past, result, n).host == w.host
  {
    var v := Step(w, Restart(left));
    StepKeeps(w, Restart(left));
    Stalls(v, past, result, n);
  }

  // ---------------------------------------------------------------------------------------------
  // What the timer is for

  /** When an answer has been lost while the device is ahead of a host that waits, one tick of its timer and one
      hearing bring the host to the device's position. */
  lemma TickCatchesUp(w: World, result: seq<Word>) returns (m: seq<Byte>)
    requires Inv(w) && w.host.Waiting? && w.device.id == Current(w) && w.device.posn > w.host.posn
    requires Find(w.log, Current(w)) == |w.log| - 1
    ensures m in Step(w, Tick(result)).toHost
    ensures Step(Step(w, Tick(result)), Hear(m)).host == Ready(w.device.posn)
  {
    var d := w.device;
    assert Latest(w.log, true, d.id);
    var words := if d.direction.Input? then [] else result;
    m := Status(d, words);
    StatusReads(d, words);
    Repeats(d, result);
    Hears(Step(w, Tick(result)), m);
  }

  lemma Repeats(d: Device, result: seq<Word>)
    requires 0 < d.posn < 2 * FftSize
    ensures Timer(d, result) == [Status(d, if d.direction.Input? then [] else result)]
  {
  }

  // ---------------------------------------------------------------------------------------------
  // Why ids must be unique

  ghost function TwoRounds(w: World, past: Past, result: seq<Word>): World {
    Onward(Onward(w, past, result), past, result)
  }

  /** A transfer, two rounds of it, and then a host process that starts again and sends other data: its counter starts
      over, so the id is the same. */
  ghost function Mix(left: seq<Write>, a: Data, b: Data, past: Past, result: seq<Word>): World {
    var w := TwoRounds(Step(Begin(left), Start(a)), past, result);
    TwoRounds(Step(Step(w, Reboot), Start(b)), past, result)
  }

  /** From the very start, over a network that loses nothing: the device ends up with words of both. */
  lemma ReusedIdMixes(left: seq<Write>, a: Data, b: Data, past: Past, result: seq<Word>)
    ensures Mix(left, a, b, past, result).device.writes == First(a, MaxLn) + Writes(MaxLn, b[MaxLn..2 * MaxLn])
  {
    var w0 := Step(Begin(left), Start(a));
    FirstTwo(w0, a, past, result);
    var w := TwoRounds(w0, past, result);
    StartsOver(w, b);
    SecondTwo(Step(Step(w, Reboot), Start(b)), b, past, result);
  }

  lemma FirstTwo(w: World, a: Data, past: Past, result: seq<Word>)
    requires Sending(w, a, 0) && w.device.id == -1 && w.device.direction.Input?
    ensures var v := TwoRounds(w, past, result);
            Sending(v, a, MaxLn) && Holding(v.device, MaxLn) && v.device.writes == First(a, MaxLn)
  {
    NewId(w, a, past, result);
    TakesPart(Onward(w, past, result), a, 0, past, result);
    assert [] + Writes(0, a[0..MaxLn]) == First(a, MaxLn);
  }

  lemma StartsOver(w: World, b: Data)
    requires w.log != []
    ensures var v := Step(Step(w, Reboot), Start(b)); Sending(v, b, 0) && v.device == w.device
  {
  }

  lemma SecondTwo(w: World, b: Data, past: Past, result: seq<Word>)
    requires Sending(w, b, 0) && Holding(w.device, MaxLn)
    ensures TwoRounds(w, past, result).device.writes == w.device.writes + Writes(MaxLn, b[MaxLn..2 * MaxLn])
  {
    SkipsAhead(w, b, past, result);
    TakesPart(Onward(w, past, result), b, MaxLn, past, result);
  }

  /** The host is about to send this part of these data, under the first id. */
  predicate Sending(w: World, data: Data, posn: nat) {
    w.host == Ready(posn) && w.log != [] && w.log[|w.log| - 1] == Transfer(FirstId + 1, data)
  }

  predicate Holding(d: Device, posn: nat) {
    d.id == FirstId + 1 && d.ip == HostIp && d.port == HostPort && d.posn == posn && d.direction.Input?
  }

  /** A device that has just started takes the new id, and nothing else yet. */
  lemma NewId(w: World, data: Data, past: Past, result: seq<Word>)
    requires Sending(w, data, 0) && w.device.id == -1 && w.device.direction.Input?
    ensures var v := Onward(w, past, result);
            Sending(v, data, 0) && Holding(v.device, 0) && v.device.writes == []
  {
    var m := NextPacket(w);
    PacketReads(FirstId + 1, 0, Part(data, 0));
    var r := Receive(w.device, HostIp, HostPort, m, past, result);
    StatusReads(r.device, []);
  }

  /** A device at the host's position takes its words. */
  lemma TakesPart(w: World, data: Data, posn: nat, past: Past, result: seq<Word>)
    requires Sending(w, data, posn) && OnGrid(posn) && posn + MaxLn < FftSize && Holding(w.device, posn)
    ensures var v := Onward(w, past, result);
            && Sending(v, data, posn + MaxLn) && Holding(v.device, posn + MaxLn)
            && v.device.writes == w.device.writes + Writes(posn, data[posn..posn + MaxLn])
  {
    DeviceTakes(w.device, data, posn, past, result);
    StatusReads(Receive(w.device, HostIp, HostPort, NextPacket(w), past, result).device, []);
  }

  lemma DeviceTakes(d: Device, data: Data, posn: nat, past: Past, result: seq<Word>)
    requires OnGrid(posn) && posn + MaxLn < FftSize && Holding(d, posn)
    ensures var r := Receive(d, HostIp, HostPort, Packet(FirstId + 1, posn, Part(data, posn)), past, result);
            && Holding(r.device, posn + MaxLn) && r.sent == [Status(r.device, [])]
            && r.device.writes == d.writes + Writes(posn, data[posn..posn + MaxLn])
  {
    PartIs(data, posn);
    PacketReads(FirstId + 1, posn, Part(data, posn));
    WholeWords(Packet(FirstId + 1, posn, Part(data, posn)), past);
  }

  /** A device that is ahead makes the host skip its first part. */
  lemma SkipsAhead(w: World, data: Data, past: Past, result: seq<Word>)
    requires Sending(w, data, 0) && Holding(w.device, MaxLn)
    ensures var v := Onward(w, past, result); Sending(v, data, MaxLn) && v.device == w.device
  {
    PacketReads(FirstId + 1, 0, Part(data, 0));
    StatusReads(w.device, []);
  }
}
