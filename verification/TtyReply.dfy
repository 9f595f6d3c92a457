/** The reply channel: what the device may send back for a read (rtl/wbubus/wbuexec.v,
    wbucompress.v, wbuidleint.v) and how the host expands it (sw/host/ttybus.cpp:603-732). */
module TtyReply {
  import opened SixBit
  import opened WbuDevice
  import opened TtyCode

  /** One reply codeword, or a character outside the alphabet between two of them. */
  datatype Token =
    | Idle | Busy | Ack | BusReset | Interrupt | BusError
    | Stray(c: char)
    | AddrLong(n: Word)              // six characters
    | AddrShort(digits: nat, n: Word) // one to four digits
    | Last(inc: bool)                // the word before
    | Near(dist: nat, inc: bool)     // 2 to 9 words back
    | Far(dist: nat, inc: bool)      // 10 to 521 words back
    | Raw(w: Word, inc: bool)

  predicate IsAddr(t: Token) {
    t.AddrLong? || t.AddrShort?
  }

  predicate IsData(t: Token) {
    t.Last? || t.Near? || t.Far? || t.Raw?
  }

  predicate WellFormed(t: Token) {
    match t
    case Stray(c) => !IsCode(c)
    case AddrShort(k, n) => 1 <= k <= 4 && n < Place(k)
    case Near(dist, _) => 2 <= dist <= 9
    case Far(dist, _) => 10 <= dist <= 521
    case _ => true
  }

  /** The codeword of a token, as rtl/wbubus/wbudeword.v sends it. */
  function Code(t: Token): (c: seq<Six>)
    requires WellFormed(t) && !t.Stray?
  {
    match t
    case Idle => [0]
    case Busy => [1]
    case Ack => [2]
    case BusReset => [3]
    case Interrupt => [4]
    case BusError => [5]
    case AddrLong(n) => [8 + n / 1073741824] + Digits(n, 5)
    case AddrShort(k, n) => [11 + k] + Digits(n, k)
    case Last(inc) => [6 + Bit(inc)]
    case Near(dist, inc) => [32 + 2 * (dist - 2) + Bit(inc)]
    case Far(dist, inc) => [16 + 2 * ((dist - 10) / 64) + Bit(inc), (dist - 10) % 64]
    case Raw(w, inc) => [56 + 2 * (w / 1073741824) + Bit(inc)] + Digits(w, 5)
  }

  function Wire(t: Token): (s: seq<char>)
    requires WellFormed(t)
    ensures s != []
  {
    if t.Stray? then [t.c] else Chars(Code(t))
  }

  // ---------------------------------------------------------------------------------------------
  // The host's reading of a codeword

  /** Characters readword collects for a codeword starting with v. */
  function ReplyLen(v: Six): (n: nat)
    ensures 1 <= n <= 6
  {
    if 8 <= v < 12 then 6
    else if 12 <= v < 16 then v - 12 + 2
    else if 16 <= v < 32 then 2
    else if 56 <= v then 6
    else 1
  }

  /** What readword makes of a complete codeword; the codes from 48 to 55 mean nothing. */
  function Parse(c: seq<Six>): (t: Token)
    requires c != [] && |c| == ReplyLen(c[0]) && !(48 <= c[0] < 56)
  {
    var v := c[0];
    var arg := Val(c[1..]);
    PlaceValues();
    if v == 0 then Idle
    else if v == 1 then Busy
    else if v == 2 then Ack
    else if v == 3 then BusReset
    else if v == 4 then Interrupt
    else if v == 5 then BusError
    else if v < 8 then Last(v % 2 == 1)
    else if v < 12 then AddrLong(1073741824 * (v % 4) + arg)
    else if v < 16 then ShortArgFits(c); AddrShort(v - 11, arg)
    else if v < 32 then Far(64 * (v / 2 % 8) + arg + 10, v % 2 == 1)
    else if v < 48 then Near(v / 2 % 8 + 2, v % 2 == 1)
    else Raw(1073741824 * (v / 2 % 4) + arg, v % 2 == 1)
  }

  lemma ShortArgFits(c: seq<Six>)
    requires 2 <= |c| <= 5
    ensures 0 <= Val(c[1..]) < Place(|c| - 1) <= 16777216
  {
    PlaceValues();
  }

  ghost predicate Parses(c: seq<Six>, t: Token) {
    c != [] && |c| == ReplyLen(c[0]) && !(48 <= c[0] < 56) && Parse(c) == t
  }

  lemma ParsesAddrLong(n: Word, c: seq<Six>)
    requires c == [8 + n / 1073741824] + Digits(n, 5)
    ensures Parses(c, AddrLong(n))
  {
    RawTail(c[0], n);
  }

  lemma ParsesAddrShort(k: nat, n: Word, c: seq<Six>)
    requires 1 <= k <= 4 && n < Place(k) && c == [11 + k] + Digits(n, k)
    ensures Parses(c, AddrShort(k, n))
  {
    TailDigits(c[0], n, k);
  }

  lemma ParsesRaw(w: Word, inc: bool, c: seq<Six>)
    requires c == [56 + 2 * (w / 1073741824) + Bit(inc)] + Digits(w, 5)
    ensures Parses(c, Raw(w, inc))
  {
    RawTail(c[0], w);
    assert c[0] / 2 % 4 == w / 1073741824;
  }

  lemma ParsesFar(dist: nat, inc: bool, c: seq<Six>)
    requires 10 <= dist <= 521
    requires c == [16 + 2 * ((dist - 10) / 64) + Bit(inc), (dist - 10) % 64]
    ensures Parses(c, Far(dist, inc))
  {
    assert c[1..] == [c[1]];
    assert Val(c[1..]) == c[1] by { assert c[1..][..0] == []; }
    assert c[0] / 2 % 8 == (dist - 10) / 64;
  }

  lemma ParsesNear(dist: nat, inc: bool, c: seq<Six>)
    requires 2 <= dist <= 9 && c == [32 + 2 * (dist - 2) + Bit(inc)]
    ensures Parses(c, Near(dist, inc))
  {
    assert c[0] / 2 % 8 == dist - 2;
  }

  /** The reply code is uniquely decodable: the three table formats, the raw format and the others
      never run into one another, and each covers its own range of distances. */
  lemma ParseInvertsCode(t: Token)
    requires WellFormed(t) && !t.Stray?
    ensures Parses(Code(t), t)
  {
    match t
    case AddrLong(n) => ParsesAddrLong(n, Code(t));
    case AddrShort(k, n) => ParsesAddrShort(k, n, Code(t));
    case Raw(w, inc) => ParsesRaw(w, inc, Code(t));
    case Far(dist, inc) => ParsesFar(dist, inc, Code(t));
    case Near(dist, inc) => ParsesNear(dist, inc, Code(t));
    case _ =>
  }

  // ---------------------------------------------------------------------------------------------
  // Expanding replies

  function Distance(t: Token): nat
    requires IsData(t) && !t.Raw?
  {
    if t.Last? then 1 else t.dist
  }

  /** The read-table slot k words back. */
  function ReadSlot(rdaddr: nat, k: nat): (slot: nat)
    requires rdaddr < 1024 && k <= 1024
    ensures slot == (rdaddr - k) % 1024
  {
    if k <= rdaddr then rdaddr - k else rdaddr - k + 1024
  }

  /** The word readword returns for a data token. */
  function DataValue(h: Host, t: Token): Word
    requires HostValid(h) && WellFormed(t) && IsData(t)
  {
    if t.Raw? then t.w else h.rtbl[ReadSlot(h.rdaddr, Distance(t))]
  }

  function AfterData(h: Host, t: Token): (h': Host)
    requires HostValid(h) && IsData(t)
    ensures HostValid(h')
  {
    var h1 := h.(last := Advance(h.last, t.inc));
    if t.Raw? then h1.(rtbl := h.rtbl[h.rdaddr := t.w], rdaddr := (h.rdaddr + 1) % 1024) else h1
  }

  /** Everything before the data token: only address codewords matter. */
  function AfterSkip(h: Host, t: Token): (h': Host)
    requires HostValid(h)
    ensures HostValid(h')
  {
    if IsAddr(t) then h.(addrSet := true, last := 4 * (t.n % 1073741824)) else h
  }

  function AfterSkips(h: Host, ts: seq<Token>): (h': Host)
    requires HostValid(h)
    ensures HostValid(h')
  {
    if ts == [] then h else AfterSkip(AfterSkips(h, ts[..|ts| - 1]), ts[|ts| - 1])
  }

  /** One word's worth of reply; in place of the word there may be an error codeword. */
  datatype Reply = Reply(skip: seq<Token>, data: Token)

  predicate IsFault(t: Token) {
    t.BusReset? || t.BusError?
  }

  ghost predicate ReplyStops(r: Reply) {
    && (forall t <- r.skip :: WellFormed(t) && !IsData(t) && !IsFault(t))
    && WellFormed(r.data) && (IsData(r.data) || IsFault(r.data))
  }

  ghost predicate ReplyWellFormed(r: Reply) {
    ReplyStops(r) && IsData(r.data)
  }

  ghost function Wires(ts: seq<Token>): seq<char>
    requires forall t <- ts :: WellFormed(t)
  {
    if ts == [] then [] else Wire(ts[0]) + Wires(ts[1..])
  }

  ghost function WireReply(r: Reply): seq<char>
    requires ReplyStops(r)
  {
    Wires(r.skip) + Wire(r.data)
  }

  ghost function WireReplies(rs: seq<Reply>): seq<char>
    requires forall r <- rs :: ReplyStops(r)
  {
    if rs == [] then [] else WireReply(rs[0]) + WireReplies(rs[1..])
  }

  function AfterReply(h: Host, r: Reply): (h': Host)
    requires HostValid(h) && IsData(r.data)
    ensures HostValid(h')
  {
    AfterData(AfterSkips(h, r.skip), r.data)
  }

  function ReplyWord(h: Host, r: Reply): Word
    requires HostValid(h) && WellFormed(r.data) && IsData(r.data)
  {
    DataValue(AfterSkips(h, r.skip), r.data)
  }

  // ---------------------------------------------------------------------------------------------
  // The device's side of the reply channel

  /** The device's read table, newest word last, and the address of the next word it reports. */
  datatype Out = Out(hist: seq<Word>, waddr: int)

  /** The word a data token stands for on the device's side, if it may send that token. */
  ghost predicate DataLegal(o: Out, t: Token, w: Word) {
    && WellFormed(t) && IsData(t)
    && if t.Raw? then t.w == w
       else Distance(t) <= |o.hist| && o.hist[|o.hist| - Distance(t)] == w
  }

  /** Sending an address codeword empties the device's table. */
  function OutSkip(o: Out, t: Token): Out {
    if IsAddr(t) then o.(hist := []) else o
  }

  function OutSkips(o: Out, ts: seq<Token>): Out {
    if ts == [] then o else OutSkip(OutSkips(o, ts[..|ts| - 1]), ts[|ts| - 1])
  }

  function OutData(o: Out, t: Token): Out
    requires IsData(t)
  {
    Out(if t.Raw? then o.hist + [t.w] else o.hist, o.waddr + if t.inc then 1 else 0)
  }

  ghost predicate ReplyLegal(o: Out, r: Reply, w: Word, inc: bool) {
    && ReplyWellFormed(r)
    && (forall t <- r.skip :: IsAddr(t) ==> t.n % 1073741824 == o.waddr % 1073741824)
    && DataLegal(OutSkips(o, r.skip), r.data, w) && r.data.inc == inc
  }

  function OutReply(o: Out, r: Reply): Out
    requires IsData(r.data)
  {
    OutData(OutSkips(o, r.skip), r.data)
  }

  /** Every word the device may still refer back to is where the host will look for it. */
  ghost predicate Covers(h: Host, o: Out)
    requires HostValid(h)
  {
    forall k :: 1 <= k <= 521 && k <= |o.hist| ==> h.rtbl[ReadSlot(h.rdaddr, k)] == o.hist[|o.hist| - k]
  }

  /** Coverage is exactly what expansion needs: the host gets the device's word for every data token
      the device may send, if and only if it covers the device's table. */
  lemma CoversIffDecodes(h: Host, o: Out)
    requires HostValid(h)
    ensures Covers(h, o) <==> forall t, w :: DataLegal(o, t, w) ==> DataValue(h, t) == w
  {
    if forall t, w :: DataLegal(o, t, w) ==> DataValue(h, t) == w {
      forall k | 1 <= k <= 521 && k <= |o.hist|
        ensures h.rtbl[ReadSlot(h.rdaddr, k)] == o.hist[|o.hist| - k]
      {
        var t := if k == 1 then Last(false) else if k <= 9 then Near(k, false) else Far(k, false);
        assert DataLegal(o, t, o.hist[|o.hist| - k]);
      }
    }
  }

  lemma DataKeepsCover(h: Host, o: Out, t: Token, w: Word)
    requires HostValid(h) && Covers(h, o) && DataLegal(o, t, w)
    ensures DataValue(h, t) == w && Covers(AfterData(h, t), OutData(o, t))
  {
    if t.Raw? {
      var h', o' := AfterData(h, t), OutData(o, t);
      forall k | 1 <= k <= 521 && k <= |o'.hist|
        ensures h'.rtbl[ReadSlot(h'.rdaddr, k)] == o'.hist[|o'.hist| - k]
      {
        if k > 1 {
          assert ReadSlot(h'.rdaddr, k) == ReadSlot(h.rdaddr, k - 1);
          assert o'.hist[|o'.hist| - k] == o.hist[|o.hist| - (k - 1)];
        } else {
          assert ReadSlot(h'.rdaddr, 1) == h.rdaddr;
        }
      }
    }
  }

  ghost predicate Announced(ts: seq<Token>) {
    exists t :: t in ts && IsAddr(t)
  }

  lemma {:induction false} SkipsKeepCover(h: Host, o: Out, ts: seq<Token>)
    requires HostValid(h) && (Covers(h, o) || Announced(ts))
    requires forall t <- ts :: IsAddr(t) ==> t.n % 1073741824 == o.waddr % 1073741824
    ensures var h', o' := AfterSkips(h, ts), OutSkips(o, ts);
            && Covers(h', o') && o'.waddr == o.waddr
            && (h'.last == if Announced(ts) then BusAddr(o.waddr) else h.last)
            && (h'.addrSet == (h.addrSet || Announced(ts)))
    decreases |ts|
  {
    if ts != [] {
      var init, t := ts[..|ts| - 1], ts[|ts| - 1];
      assert forall x :: x in ts <==> x in init || x == t;
      if IsAddr(t) && !(Covers(h, o) || Announced(init)) {
        SkipsPlain(h, o, init);
      } else {
        SkipsKeepCover(h, o, init);
      }
    }
  }

  lemma {:induction false} SkipsPlain(h: Host, o: Out, ts: seq<Token>)
    requires HostValid(h) && !Announced(ts)
    ensures AfterSkips(h, ts) == h && OutSkips(o, ts) == o
  {
    if ts != [] {
      var init := ts[..|ts| - 1];
      assert forall x :: x in init ==> x in ts;
      SkipsPlain(h, o, init);
      assert ts[|ts| - 1] in ts;
    }
  }
}
