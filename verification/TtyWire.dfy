/** The debug bus on the wire, character by character: the alphabet, and one example of every kind of codeword in each
    direction. */
module TtyWire {
  import opened SixBit
  import opened WbuDevice
  import opened TtyCode
  import opened TtyRead
  import opened TtyReply

  /** The characters by their ASCII codes: digits, upper case, lower case, the at sign and the percent sign. */
  lemma AlphabetIs(v: Six)
    ensures CharEnc(v) as int ==
            if v < 10 then 48 + v else if v < 36 then 65 + (v - 10) else if v < 62 then 97 + (v - 36) else if v == 62 then 64 else 37
  {
  }

  /** These characters spell these values. */
  predicate Spells(s: string, code: seq<int>) {
    |s| == |code| && forall i :: 0 <= i < |s| ==> 0 <= code[i] < 64 && s[i] == CharEnc(code[i])
  }

  lemma Spelled(s: string, code: seq<Six>)
    requires Spells(s, code)
    ensures Chars(code) == s
  {
    assert forall i :: 0 <= i < |s| ==> Chars(code)[i] == s[i];
  }

  /** Two digits and five. */
  lemma TwoDigits(n: nat, a: Six, b: Six)
    requires n == 64 * a + b
    ensures Digits(n, 2) == [a, b]
  {
    assert Digits(n / 64, 1) == Digits(n / 64 / 64, 0) + [n / 64 % 64];
  }

  lemma FiveDigits(n: nat, a: nat, b: Six, c: Six, d: Six, e: Six)
    requires n == 64 * (64 * (64 * (64 * a + b) + c) + d) + e
    ensures Digits(n, 5) == [a % 64, b, c, d, e]
  {
    var n1, n2, n3 := n / 64, n / 64 / 64, n / 64 / 64 / 64;
    assert n1 == 64 * (64 * (64 * a + b) + c) + d && n2 == 64 * (64 * a + b) + c && n3 == 64 * a + b;
    assert Digits(n, 5) == Digits(n1, 4) + [e] && Digits(n1, 4) == Digits(n2, 3) + [d];
    assert Digits(n2, 3) == Digits(n3, 2) + [c];
    assert Digits(n3, 2) == Digits(a, 1) + [b];
    assert Digits(a, 1) == Digits(a / 64, 0) + [a % 64];
  }

  // ---------------------------------------------------------------------------------------------
  // From the host

  /** The first call of a fresh host, a write of 0x12345678 to 0x1000: an address of two digits, a raw word, and the
      end of the line. */
  lemma WriteOnWire(h: Host)
    requires HostValid(h) && !h.addrSet && !h.wrloaded && h.wraddr == 0
    ensures WriteCall(h, 0x1000, false, [0x1234_5678]).sent == "AG0OID5Pu\n"
  {
    AddressOnWire(h.last);
    WordOnWire(AtAddress(h, 0x1000), 0x1234_5678);
    assert "AG0" + "OID5Pu" + ['\n'] == "AG0OID5Pu\n";
  }

  lemma AddressOnWire(last: Word)
    ensures Chars(AddressCode(false, last, 0x1000)) == "AG0"
  {
    TwoDigits(0x400, 16, 0);
    assert AddressCode(false, last, 0x1000) == [10] + Digits(0x400, 2) == [10, 16, 0];
    Spelled("AG0", [10, 16, 0]);
  }

  lemma WordOnWire(h: Host, w: Word)
    requires HostValid(h) && h.wraddr == 0 && !h.wrloaded && w == 0x1234_5678
    ensures Chars(WordsCode(h, false, [w])) == "OID5Pu"
  {
    NothingFound(h, w);
    OneWord(h, w);
    RawWordOnWire(w);
  }

  lemma RawWordOnWire(w: Word)
    requires w == 0x1234_5678
    ensures Chars([24 + 2 * (w / 1073741824) + Bit(false)] + Digits(w, 5)) == "OID5Pu"
  {
    FiveDigits(w, 18, 13, 5, 25, 56);
    assert [24 + 2 * (w / 1073741824) + Bit(false)] + Digits(w, 5) == [24, 18, 13, 5, 25, 56];
    Spelled("OID5Pu", [24, 18, 13, 5, 25, 56]);
  }

  lemma NothingFound(h: Host, w: Word)
    requires HostValid(h) && h.wraddr == 0 && !h.wrloaded
    ensures FindBack(h, w, 1) == 0
  {
    FindBackFinds(h, w, 1);
  }

  lemma OneWord(h: Host, w: Word)
    requires |h.wtbl| == 512 && h.wraddr < 256
    ensures WordsCode(h, false, [w]) == WordCode(h, false, w)
  {
    assert [w][..0] == [];
    assert WordsCode(h, false, []) == [];
  }

  /** Requests for one word, for eight with increment, and for 512. */
  lemma RequestsOnWire()
    ensures Chars(ReadCode(false, 1)) == "W" && Chars(ReadCode(true, 8)) == "l" && Chars(ReadCode(false, 512)) == "@t"
  {
    Spelled("W", ReadCode(false, 1));
    Spelled("l", ReadCode(true, 8));
    Spelled("@t", ReadCode(false, 512));
  }

  /** What the device makes of one codeword of each kind. */
  lemma CommandsOnWire()
    ensures Complete([0, 0, 0, 16, 0, 0]) && Complete([8, 5]) && Complete([9, 63]) && Complete([16, 7])
    ensures Complete([25, 0, 0, 0, 0, 9]) && Complete([32]) && Complete([46]) && Complete([49, 3])
    ensures Decode([8, 5]) == SetAbs(5) && Decode([9, 63]) == SetRel(-1) && Decode([16, 7]) == WriteRef(7, false)
    ensures Decode([32]) == ReadWords(1, false) && Decode([46]) == EndOfWrite && Decode([49, 3]) == ReadWords(12, true)
  {
    PlaceValues();
    OneDigit(8, 5);
    OneDigit(9, 63);
    OneDigit(16, 7);
    OneDigit(49, 3);
  }

  lemma OneDigit(v: Six, x: Six)
    ensures Val([v, x][1..]) == x
  {
    assert [v, x][1..] == [x];
    assert [x][..0] == [];
  }

  // ---------------------------------------------------------------------------------------------
  // To the host

  /** The reply codewords of one character. */
  lemma SinglesOnWire()
    ensures Wire(Idle) == "0" && Wire(Busy) == "1" && Wire(Ack) == "2" && Wire(BusReset) == "3" && Wire(Interrupt) == "4"
    ensures Wire(BusError) == "5" && Wire(Last(false)) == "6" && Wire(Last(true)) == "7"
  {
    Single(Idle, 0, '0');
    Single(Busy, 1, '1');
    Single(Ack, 2, '2');
    Single(BusReset, 3, '3');
    Single(Interrupt, 4, '4');
    Single(BusError, 5, '5');
    Single(Last(false), 6, '6');
    Single(Last(true), 7, '7');
  }

  lemma Single(t: Token, v: Six, c: char)
    requires WellFormed(t) && !t.Stray? && Code(t) == [v] && CharEnc(v) == c
    ensures Wire(t) == [c]
  {
    Spelled([c], [v]);
  }

  /** References to the nearest and the farthest word of each kind. */
  lemma ReferencesOnWire()
    ensures Wire(Near(2, false)) == "W" && Wire(Near(9, true)) == "l" && Wire(Far(10, false)) == "G0" && Wire(Far(521, true)) == "V%"
  {
    Single(Near(2, false), 32, 'W');
    Single(Near(9, true), 47, 'l');
    Spelled("G0", Code(Far(10, false)));
    Spelled("V%", Code(Far(521, true)));
  }

  /** An address of two digits, and a raw word. */
  lemma ValuesOnWire()
    ensures WellFormed(AddrShort(2, 0x400)) && Wire(AddrShort(2, 0x400)) == "DG0" && Wire(Raw(0xdead_beef, true)) == "%UhRxl"
  {
    PlaceValues();
    TwoDigits(0x400, 16, 0);
    assert Code(AddrShort(2, 0x400)) == [13, 16, 0];
    Spelled("DG0", [13, 16, 0]);
    RawOnWire(0xdead_beef);
  }

  lemma RawOnWire(w: Word)
    requires w == 0xdead_beef
    ensures Wire(Raw(w, true)) == "%UhRxl"
  {
    FiveDigits(w, 222, 43, 27, 59, 47);
    assert Code(Raw(w, true)) == [63, 30, 43, 27, 59, 47];
    Spelled("%UhRxl", [63, 30, 43, 27, 59, 47]);
  }
}
