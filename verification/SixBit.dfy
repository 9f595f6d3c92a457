/** The six-bit-per-character alphabet of the debug bus (sw/host/ttybus.cpp, rtl/wbubus/wbutohex.v). */
module SixBit {
  import Arith

  const WORD_LIMIT: int := 0x1_0000_0000

  /** A 32-bit bus word. */
  type Word = x: int | 0 <= x < 0x1_0000_0000

  /** The payload of one character. */
  type Six = x: int | 0 <= x < 64

  /** What `CharDec` answers for a character outside the alphabet. */
  const INVALID: int := 0x100

  function CharEnc(v: Six): (c: char) {
    if v < 10 then '0' + v as char
    else if v < 36 then 'A' + (v - 10) as char
    else if v < 62 then 'a' + (v - 36) as char
    else if v == 62 then '@'
    else '%'
  }

  function CharDec(c: char): (v: int)
    ensures 0 <= v < 64 || v == INVALID
  {
    if '0' <= c <= '9' then c as int - '0' as int
    else if 'A' <= c <= 'Z' then c as int - 'A' as int + 10
    else if 'a' <= c <= 'z' then c as int - 'a' as int + 36
    else if c == '@' then 62
    else if c == '%' then 63
    else INVALID
  }

  predicate IsCode(c: char) {
    CharDec(c) < 64
  }

  /** Both directions of the alphabet: every six-bit value survives, and every valid character is
      the image of its own value. */
  lemma AlphabetRoundTrip(v: Six, c: char)
    ensures IsCode(CharEnc(v)) && CharDec(CharEnc(v)) == v
    ensures IsCode(c) ==> CharEnc(CharDec(c)) == c
  {
  }

  function Chars(s: seq<Six>): (r: seq<char>)
    ensures |r| == |s|
  {
    seq(|s|, i requires 0 <= i < |s| => CharEnc(s[i]))
  }

  lemma CharsConcat(s: seq<Six>, t: seq<Six>)
    ensures Chars(s + t) == Chars(s) + Chars(t)
  {
  }

  /** 64 to the power k. */
  function Place(k: nat): (p: int)
    ensures p >= 1
  {
    if k == 0 then 1 else 64 * Place(k - 1)
  }

  /** The number spelled by a run of characters, most significant first. */
  function Val(s: seq<Six>): (n: int)
    ensures 0 <= n < Place(|s|)
  {
    if s == [] then 0 else 64 * Val(s[..|s| - 1]) + s[|s| - 1]
  }

  /** The k low base-64 digits of n, most significant first. */
  function Digits(n: nat, k: nat): (s: seq<Six>)
    ensures |s| == k
  {
    if k == 0 then [] else Digits(n / 64, k - 1) + [n % 64]
  }

  lemma {:induction false} DigitsVal(n: nat, k: nat)
    ensures Val(Digits(n, k)) == n % Place(k)
  {
    if k > 0 {
      DigitsVal(n / 64, k - 1);
      assert Digits(n, k)[..k - 1] == Digits(n / 64, k - 1);
      SplitLowDigit(n, Place(k - 1));
    }
  }

  lemma SplitLowDigit(n: nat, p: int)
    requires p >= 1
    ensures n % (64 * p) == 64 * (n / 64 % p) + n % 64
  {
    var q := n / 64;
    var t, u := q / p, q % p;
    assert (64 * p) * t == 64 * (p * t);
    Arith.DivModUnique(n, 64 * p, t, 64 * u + n % 64);
  }

  lemma PlaceValues()
    ensures Place(0) == 1 && Place(1) == 64 && Place(2) == 4096 && Place(3) == 262144
    ensures Place(4) == 16777216 && Place(5) == 1073741824
  {
    assert Place(2) == 64 * Place(1);
    assert Place(3) == 64 * Place(2);
    assert Place(4) == 64 * Place(3);
    assert Place(5) == 64 * Place(4);
  }
}
