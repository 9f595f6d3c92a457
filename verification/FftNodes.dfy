/** The two ends of the FFT protocol as the programs they are: the device's globals are changed by each
    packet, and the host fills and reads one buffer over and over. */
module FftNodes {
  import opened FftWire
  import opened FftProtocol

  class FftDevice {
    var id: int
    var ip: nat
    var port: nat
    var posn: nat
    var direction: Direction
    var writes: seq<Write>
    var sent: seq<seq<Byte>>  // every packet handed to tx_udp

    function State(): Device
      reads this`id, this`ip, this`port, this`posn, this`direction, this`writes
    {
      Device(id, ip, port, posn, direction, writes)
    }

    constructor (left: seq<Write>)
      ensures State() == Boot(left) && sent == []
    {
      id, ip, port, posn, direction, writes, sent := -1, 0, 0, 0, Input, left, [];
    }

    method ResetFft()
      modifies this`writes
      ensures writes == []
    {
      writes := [];
    }

    method Acknowledge(words: seq<Word>)
      modifies this`sent
      ensures sent == old(sent) + [Status(State(), words)]
      ensures var m := sent[|old(sent)|]; |m| == 4 + 4 * |words| && Id(m) == id % 0x1_0000 && Posn(m) == posn % 0x1_0000
    {
      PacketReads(id % 0x1_0000, posn % 0x1_0000, words);
      sent := sent + [Packet(id % 0x1_0000, posn % 0x1_0000, words)];
    }

    /** Every word of the packet goes to the next place. */
    method StoreWords(m: seq<Byte>, past: Past)
      requires |m| >= 4
      modifies this`posn, this`writes
      ensures posn == old(posn) + |WordsOf(m, past)| && writes == old(writes) + Writes(old(posn), WordsOf(m, past))
      ensures posn == old(posn) + (|m| - 1) / 4
    {
      ghost var words, start := WordsOf(m, past), posn;
      var p := m + past;
      ghost var done: nat := 0;
      var k := 4;
      while k < |m|
        invariant k == 4 + 4 * done && done <= |words| && posn == start + done
        invariant writes == old(writes) + Writes(start, words[..done])
        decreases |m| - k
      {
        assert words[done] == Rd32(p, 4 + 4 * done);
        WritesOn(start, words, done);
        writes := writes + [Write(posn, Rd32(p, k))];
        posn := posn + 1;
        done := done + 1;
        k := k + 4;
      }
      assert words[..done] == words;
    }

    /** A packet: words for the upload that is under way, the start of another, or a request for the result. */
    method FftPacket(srcip: nat, sport: nat, m: seq<Byte>, past: Past, result: seq<Word>)
      requires |m| >= 4
      modifies this
      ensures var r := Receive(old(State()), srcip, sport, m, past, result); State() == r.device && sent == old(sent) + r.sent
    {
      if direction.Input? {
        TakeInput(srcip, sport, m, past);
      } else {
        GiveOutput(srcip, sport, m, past, result);
      }
    }

    method TakeInput(srcip: nat, sport: nat, m: seq<Byte>, past: Past)
      requires |m| >= 4 && direction.Input?
      modifies this
      ensures var r := Receive(old(State()), srcip, sport, m, past, []); State() == r.device && sent == old(sent) + r.sent
    {
      if Id(m) == id && srcip == ip && port == sport && Posn(m) == posn {
        StoreWords(m, past);
        Acknowledge([]);
        if posn == FftSize {
          direction := Output;
        }
      } else if Id(m) != id || port != sport {
        ResetFft();
        id, ip, port, posn := Id(m), srcip, sport, 0;
        Acknowledge([]);
      } else {
        Acknowledge([]);
      }
    }

    method GiveOutput(srcip: nat, ghost sport: nat, m: seq<Byte>, ghost past: Past, result: seq<Word>)
      requires |m| >= 4 && direction.Output?
      modifies this
      ensures var r := Receive(old(State()), srcip, sport, m, past, result); State() == r.device && sent == old(sent) + r.sent
      ensures Id(m) == old(id) && srcip == old(ip) ==>
                && id == old(id) && posn >= old(posn) && posn >= Posn(m) && posn in {old(posn), Posn(m)}
                && (if Posn(m) >= 2048 then direction.Input? && writes == [] && sent == old(sent)
                    else direction.Output? && writes == old(writes) && |sent| == |old(sent)| + 1)
      ensures Id(m) != old(id) ==>
                && direction.Input? && id == Id(m) && ip == srcip && posn == 0 && writes == [] && |sent| == |old(sent)| + 1
      ensures Id(m) == old(id) && srcip != old(ip) ==> State() == old(State()) && sent == old(sent)
    {
      if Id(m) == id && srcip == ip {
        if Posn(m) >= 2 * FftSize {
          ResetFft();
          direction := Input;
        } else {
          Acknowledge(result);
        }
        if Posn(m) > posn {
          posn := Posn(m);
        }
      } else if Id(m) != id {
        ResetFft();
        id, direction, ip, posn := Id(m), Input, srcip, 0;
        Acknowledge([]);
      }
    }

    /** What ffttimeout repeats: an upload that has begun is acknowledged in four bytes, a result not yet taken is sent
        again, and both say where the device is; otherwise nothing goes out. */
    method FftTimeout(result: seq<Word>)
      modifies this`sent
      ensures sent == old(sent) + Timer(State(), result)
      ensures var more := sent[|old(sent)|..];
              if (if direction.Input? then posn > 0 else posn < 2048) then
                && |more| == 1 && |more[0]| == 4 + (if direction.Input? then 0 else 4 * |result|)
                && Id(more[0]) == id % 0x1_0000 && Posn(more[0]) == posn % 0x1_0000
              else more == []
    {
      PacketReads(id % 0x1_0000, posn % 0x1_0000, if direction.Input? then [] else result);
      if direction.Input? {
        if posn > 0 {
          Acknowledge([]);
        }
      } else if posn < 2 * FftSize {
        Acknowledge(result);
      }
    }
  }

  lemma WritesOn(start: nat, words: seq<Word>, k: nat)
    requires k < |words|
    ensures Writes(start, words[..k + 1]) == Writes(start, words[..k]) + [Write(start + k, words[k])]
  {
  }

  lemma BodyOn(head: seq<Byte>, words: seq<Word>, k: nat)
    requires k < |words|
    ensures head + Body(words[..k]) + Wr32(words[k]) == head + Body(words[..k + 1])
  {
    assert words[..k + 1][..k] == words[..k];
  }

  class FftHost {
    const buf: array<Byte>
    var id: Half
    var posn: nat
    var data: Data

    ghost predicate Valid() {
      buf.Length == 4 + 4 * MaxLn
    }

    constructor (id: Half, data: Data)
      ensures Valid() && fresh(buf) && posn == 0 && this.id == id && this.data == data
    {
      buf := new Byte[4 + 4 * MaxLn](_ => 0);
      this.id, this.data, posn := id, data, 0;
    }

    method Put16(loc: nat, v: Half)
      requires loc + 2 <= buf.Length
      modifies buf
      ensures buf[..loc + 2] == old(buf[..loc]) + Wr16(v)
    {
      buf[loc] := v / 256;
      buf[loc + 1] := v % 256;
    }

    method Put32(loc: nat, v: Word)
      requires loc + 4 <= buf.Length
      modifies buf
      ensures buf[..loc + 4] == old(buf[..loc]) + Wr32(v)
    {
      buf[loc] := v / 0x100_0000;
      buf[loc + 1] := v / 0x1_0000 % 256;
      buf[loc + 2] := v / 256 % 256;
      buf[loc + 3] := v % 256;
    }

    /** The packet the top of the upload loop writes. */
    method FillPacket()
      requires Valid() && posn + MaxLn <= FftSize
      modifies buf
      ensures buf[..] == Packet(id, posn, Part(data, posn))
    {
      ghost var part := Part(data, posn);
      Put16(0, id);
      Put16(2, posn);
      assert buf[..2] + Wr16(posn) == Wr16(id) + Wr16(posn);
      assert part[..0] == [];
      for k := 0 to MaxLn
        invariant buf[..4 + 4 * k] == Wr16(id) + Wr16(posn) + Body(part[..k])
      {
        Put32(4 + 4 * k, data[k + posn]);
        BodyOn(Wr16(id) + Wr16(posn), part, k);
        assert 4 + 4 * (k + 1) == 4 + 4 * k + 4;
      }
      assert part[..MaxLn] == part && buf[..4 + 4 * MaxLn] == buf[..];
    }

    /** What an answer of at least four bytes does. */
    method TakeAnswer(m: seq<Byte>)
      requires |m| >= 4
      modifies this`posn
      ensures posn == Heard(id, old(posn), m)
      ensures if Id(m) != id then posn == 0 else posn >= old(posn) && posn >= Posn(m) && posn in {old(posn), Posn(m)}
    {
      if Id(m) != id {
        posn := 0;
      } else if Posn(m) > posn {
        posn := Posn(m);
      }
    }
  }
}
