/** Packets of the FFT protocol as bytes: sw/host/testfft.cpp writes them and sw/rv32/fftmain.c reads them,
    and the other way around for acknowledgements. */
module FftWire {
  import opened Arith

  type Byte = n: nat | n < 256
  type Half = n: nat | n < 0x1_0000
  type Word = n: nat | n < 0x1_0000_0000

  const FftSize: nat := 1024
  const MaxLn: nat := 128

  function Wr16(v: Half): seq<Byte> {
    [v / 256, v % 256]
  }

  function Wr32(v: Word): seq<Byte> {
    [v / 0x100_0000, v / 0x1_0000 % 256, v / 256 % 256, v % 256]
  }

  function Rd16(m: seq<Byte>, i: nat): Half
    requires i + 2 <= |m|
  {
    var a: nat, b: nat := m[i], m[i + 1];
    a * 256 + b
  }

  function Rd32(m: seq<Byte>, i: nat): Word
    requires i + 4 <= |m|
  {
    var a: nat, b: nat, c: nat, d: nat := m[i], m[i + 1], m[i + 2], m[i + 3];
    ((a * 256 + b) * 256 + c) * 256 + d
  }

  lemma RoundTrip16(v: Half)
    ensures v / 256 * 256 + v % 256 == v
  {
  }

  lemma RoundTrip32(v: Word)
    ensures Rd32(Wr32(v), 0) == v
  {
    DivDiv(v, 256, 256);
    DivDiv(v, 0x1_0000, 256);
    assert v / 256 == v / 0x1_0000 * 256 + v / 256 % 256;
    assert v / 0x1_0000 == v / 0x100_0000 * 256 + v / 0x1_0000 % 256;
  }

  /** A packet: transfer id, position, words. */
  function Packet(id: Half, posn: Half, words: seq<Word>): seq<Byte> {
    Wr16(id) + Wr16(posn) + Body(words)
  }

  /** On the wire everything is most significant byte first: two bytes of id, two of position, four of each word. */
  lemma PacketBytes(id: Half, posn: Half, words: seq<Word>, k: nat)
    requires k < |words|
    ensures var m := Packet(id, posn, words);
            && |m| == 4 + 4 * |words| && m[0] == id / 256 && m[1] == id % 256 && m[2] == posn / 256 && m[3] == posn % 256
            && m[4 + 4 * k] == words[k] / 0x100_0000 && m[5 + 4 * k] == words[k] / 0x1_0000 % 256
            && m[6 + 4 * k] == words[k] / 256 % 256 && m[7 + 4 * k] == words[k] % 256
  {
    var m, b := Packet(id, posn, words), Body(words);
    BodyAt(words, k);
    var w := b[4 * k..4 * k + 4];
    assert w[0] == b[4 * k] && w[1] == b[4 * k + 1] && w[2] == b[4 * k + 2] && w[3] == b[4 * k + 3];
  }

  function Body(words: seq<Word>): (b: seq<Byte>)
    ensures |b| == 4 * |words|
  {
    if words == [] then [] else Body(words[..|words| - 1]) + Wr32(words[|words| - 1])
  }

  function Id(m: seq<Byte>): Half
    requires |m| >= 4
  {
    Rd16(m, 0)
  }

  function Posn(m: seq<Byte>): Half
    requires |m| >= 4
  {
    Rd16(m, 2)
  }

  /** The words after the header. */
  function Words(m: seq<Byte>): (w: seq<Word>)
    requires |m| >= 4
    ensures |w| == (|m| - 4) / 4
  {
    seq((|m| - 4) / 4, k requires 0 <= k < (|m| - 4) / 4 => Rd32(m, 4 + 4 * k))
  }

  lemma {:induction false} BodyAt(words: seq<Word>, k: nat)
    requires k < |words|
    ensures Body(words)[4 * k..4 * k + 4] == Wr32(words[k])
  {
    var n := |words| - 1;
    if k < n {
      BodyAt(words[..n], k);
      assert Body(words)[4 * k..4 * k + 4] == Body(words[..n])[4 * k..4 * k + 4];
    } else {
      assert Body(words)[4 * k..4 * k + 4] == Wr32(words[n]);
    }
  }

  /** Reading a packet back gives what was written. */
  lemma PacketReads(id: Half, posn: Half, words: seq<Word>)
    ensures var m := Packet(id, posn, words);
            |m| == 4 + 4 * |words| && Id(m) == id && Posn(m) == posn && Words(m) == words
  {
    var m := Packet(id, posn, words);
    RoundTrip16(id);
    RoundTrip16(posn);
    forall k | 0 <= k < |words| ensures Words(m)[k] == words[k] {
      BodyAt(words, k);
      AfterHeader(Wr16(id) + Wr16(posn), Body(words), 4 * k);
      WordReads(m, 4 + 4 * k, words[k]);
    }
  }

  lemma AfterHeader(head: seq<Byte>, body: seq<Byte>, i: nat)
    requires |head| == 4 && i + 4 <= |body|
    ensures (head + body)[4 + i..4 + i + 4] == body[i..i + 4]
  {
    var m := head + body;
    assert m[4 + i] == body[i] && m[5 + i] == body[i + 1] && m[6 + i] == body[i + 2] && m[7 + i] == body[i + 3];
  }

  lemma WordReads(m: seq<Byte>, i: nat, v: Word)
    requires i + 4 <= |m| && m[i..i + 4] == Wr32(v)
    ensures Rd32(m, i) == v
  {
    RoundTrip32(v);
    assert m[i] == Wr32(v)[0] && m[i + 1] == Wr32(v)[1] && m[i + 2] == Wr32(v)[2] && m[i + 3] == Wr32(v)[3];
  }

  /** The three bytes that lie behind a packet in its buffer. */
  type Past = s: seq<Byte> | |s| == 3 witness [0, 0, 0]

  /** The words the device's loop reads: it goes on while its position is inside the packet, so the last word of a
      packet of odd length ends behind it. */
  function WordsOf(m: seq<Byte>, past: Past): (w: seq<Word>)
    requires |m| >= 4
    ensures |w| == (|m| - 1) / 4
  {
    seq((|m| - 1) / 4, k requires 0 <= k < (|m| - 1) / 4 => Rd32(m + past, 4 + 4 * k))
  }

  lemma WholeWords(m: seq<Byte>, past: Past)
    requires |m| >= 4 && |m| % 4 == 0
    ensures WordsOf(m, past) == Words(m)
  {
    forall k | 0 <= k < (|m| - 4) / 4 ensures WordsOf(m, past)[k] == Words(m)[k] {
    }
  }
}
