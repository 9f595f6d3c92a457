/** Whole sessions over the debug bus: any mix of read and write calls, host, device and reply
    channel together. */
module TtySession {
  import opened SixBit
  import opened WbuDevice
  import opened TtyCode
  import opened TtyRead
  import opened TtyReply
  import Fold

  // ---------------------------------------------------------------------------------------------
  // The replies to one read call

  function AfterReplies(h: Host, rs: seq<Reply>): (h': Host)
    requires HostValid(h) && forall r <- rs :: IsData(r.data)
    ensures HostValid(h')
  {
    if rs == [] then h else AfterReply(AfterReplies(h, rs[..|rs| - 1]), rs[|rs| - 1])
  }

  /** The words successive readword calls return. */
  function ReplyWords(h: Host, rs: seq<Reply>): (ws: seq<Word>)
    requires HostValid(h) && forall r <- rs :: WellFormed(r.data) && IsData(r.data)
    ensures |ws| == |rs|
  {
    if rs == [] then [] else
    var init := rs[..|rs| - 1];
    ReplyWords(h, init) + [ReplyWord(AfterReplies(h, init), rs[|rs| - 1])]
  }

  function OutReplies(o: Out, rs: seq<Reply>): Out
    requires forall r <- rs :: IsData(r.data)
  {
    if rs == [] then o else OutReply(OutReplies(o, rs[..|rs| - 1]), rs[|rs| - 1])
  }

  /** rs is a reply stream the device may send for the words ws. */
  ghost predicate RepliesLegal(o: Out, rs: seq<Reply>, ws: seq<Word>, inc: bool) {
    && |rs| == |ws|
    && (forall r <- rs :: ReplyWellFormed(r))
    && (rs != [] ==>
          var n := |rs| - 1;
          && RepliesLegal(o, rs[..n], ws[..n], inc)
          && ReplyLegal(OutReplies(o, rs[..n]), rs[n], ws[n], inc))
  }

  /** Host and device agree on the position and the host can expand whatever comes next. */
  ghost predicate Tracking(h: Host, o: Out) {
    HostValid(h) && h.addrSet && h.last == BusAddr(o.waddr) && Covers(h, o)
  }

  lemma ReplyReturns(h: Host, o: Out, r: Reply, w: Word, inc: bool)
    requires HostValid(h) && (Tracking(h, o) || Announced(r.skip))
    requires ReplyLegal(o, r, w, inc)
    ensures ReplyWord(h, r) == w && Tracking(AfterReply(h, r), OutReply(o, r))
  {
    SkipsKeepCover(h, o, r.skip);
    DataKeepsCover(AfterSkips(h, r.skip), OutSkips(o, r.skip), r.data, w);
    BusAddrAdvance(o.waddr, inc);
  }

  lemma BusAddrAdvance(w: int, inc: bool)
    ensures BusAddr(w + if inc then 1 else 0) == Advance(BusAddr(w), inc)
  {
    BusAddrAlong(w, if inc then 1 else 0);
  }

  /** The last reply, on its own. */
  lemma LastReply(h: Host, o: Out, rs: seq<Reply>, init: seq<Reply>, r: Reply)
    requires HostValid(h) && rs == init + [r] && forall x <- rs :: WellFormed(x.data) && IsData(x.data)
    ensures (forall x <- init :: WellFormed(x.data) && IsData(x.data)) && r in rs
    ensures ReplyWords(h, rs) == ReplyWords(h, init) + [ReplyWord(AfterReplies(h, init), r)]
    ensures AfterReplies(h, rs) == AfterReply(AfterReplies(h, init), r) && OutReplies(o, rs) == OutReply(OutReplies(o, init), r)
  {
    assert rs[..|rs| - 1] == init && r in rs;
  }

  ghost predicate AllData(rs: seq<Reply>) {
    forall r <- rs :: WellFormed(r.data) && IsData(r.data)
  }

  /** The reply at k is legal where the ones before it leave the device. */
  ghost predicate LegalAt(o: Out, rs: seq<Reply>, ws: seq<Word>, inc: bool, k: nat)
    requires k < |rs| == |ws| && AllData(rs)
  {
    ReplyLegal(OutReplies(o, rs[..k]), rs[k], ws[k], inc)
  }

  lemma LegalData(o: Out, rs: seq<Reply>, ws: seq<Word>, inc: bool)
    requires RepliesLegal(o, rs, ws, inc)
    ensures AllData(rs)
  {
    forall r | r in rs ensures WellFormed(r.data) && IsData(r.data) {
      assert ReplyWellFormed(r);
    }
  }

  lemma LegalLonger(o: Out, rs: seq<Reply>, ws: seq<Word>, inc: bool, k: nat, n: nat)
    requires k < n <= |rs| == |ws| && AllData(rs) && AllData(rs[..n]) && LegalAt(o, rs[..n], ws[..n], inc, k)
    ensures LegalAt(o, rs, ws, inc, k)
  {
    assert rs[..n][..k] == rs[..k];
  }

  lemma {:induction false} LegalEverywhere(o: Out, rs: seq<Reply>, ws: seq<Word>, inc: bool, k: nat)
    requires RepliesLegal(o, rs, ws, inc) && k < |rs|
    ensures AllData(rs) && LegalAt(o, rs, ws, inc, k)
    decreases |rs|
  {
    LegalData(o, rs, ws, inc);
    var n := |rs| - 1;
    if k < n {
      LegalEverywhere(o, rs[..n], ws[..n], inc, k);
      LegalLonger(o, rs, ws, inc, k, n);
    }
  }

  /** The first k words are right, and the host follows. */
  ghost predicate Following(h: Host, o: Out, rs: seq<Reply>, ws: seq<Word>, k: nat)
    requires HostValid(h) && AllData(rs) && k <= |rs| == |ws|
  {
    && ReplyWords(h, rs[..k]) == ws[..k]
    && (k > 0 ==> Tracking(AfterReplies(h, rs[..k]), OutReplies(o, rs[..k])))
  }

  lemma FollowingNext(h: Host, o: Out, rs: seq<Reply>, ws: seq<Word>, inc: bool, k: nat)
    requires HostValid(h) && AllData(rs) && k < |rs| == |ws| && (Tracking(h, o) || Announced(rs[0].skip))
    requires Following(h, o, rs, ws, k) && LegalAt(o, rs, ws, inc, k)
    ensures Following(h, o, rs, ws, k + 1)
  {
    var init := rs[..k];
    if k == 0 {
      assert init == [];
    }
    ReplyReturns(AfterReplies(h, init), OutReplies(o, init), rs[k], ws[k], inc);
    assert rs[..k + 1] == init + [rs[k]] && ws[..k + 1] == ws[..k] + [ws[k]];
    LastReply(h, o, rs[..k + 1], init, rs[k]);
  }

  lemma {:induction false} FollowingTo(h: Host, o: Out, rs: seq<Reply>, ws: seq<Word>, inc: bool, k: nat)
    requires HostValid(h) && rs != [] && (Tracking(h, o) || Announced(rs[0].skip))
    requires RepliesLegal(o, rs, ws, inc) && k <= |rs| && AllData(rs)
    ensures Following(h, o, rs, ws, k)
  {
    if k == 0 {
      assert rs[..0] == [] && ws[..0] == [];
    } else {
      FollowingTo(h, o, rs, ws, inc, k - 1);
      LegalEverywhere(o, rs, ws, inc, k - 1);
      FollowingNext(h, o, rs, ws, inc, k - 1);
    }
  }

  /** Successive readword calls return the bus's words in order, and the host's address follows the
      device's. */
  lemma RepliesReturn(h: Host, o: Out, rs: seq<Reply>, ws: seq<Word>, inc: bool)
    requires HostValid(h) && rs != [] && (Tracking(h, o) || Announced(rs[0].skip))
    requires RepliesLegal(o, rs, ws, inc)
    ensures ReplyWords(h, rs) == ws && Tracking(AfterReplies(h, rs), OutReplies(o, rs))
  {
    LegalEverywhere(o, rs, ws, inc, 0);
    FollowingTo(h, o, rs, ws, inc, |rs|);
    assert rs[..|rs|] == rs && ws[..|rs|] == ws;
  }

  lemma {:induction false} RepliesAdvance(o: Out, rs: seq<Reply>, ws: seq<Word>, inc: bool)
    requires RepliesLegal(o, rs, ws, inc)
    ensures OutReplies(o, rs).waddr == o.waddr + if inc then |ws| else 0
    decreases |rs|
  {
    if rs != [] {
      var n := |rs| - 1;
      RepliesAdvance(o, rs[..n], ws[..n], inc);
      SkipsStay(OutReplies(o, rs[..n]), rs[n].skip);
    }
  }

  lemma {:induction false} SkipsStay(o: Out, ts: seq<Token>)
    ensures OutSkips(o, ts).waddr == o.waddr
  {
    if ts != [] {
      SkipsStay(o, ts[..|ts| - 1]);
    }
  }

  /** Reading leaves the write table alone. */
  lemma {:induction false} RepliesKeepWrites(h: Host, rs: seq<Reply>)
    requires HostValid(h) && forall r <- rs :: IsData(r.data)
    ensures var h' := AfterReplies(h, rs);
            h'.wtbl == h.wtbl && h'.wraddr == h.wraddr && h'.wrloaded == h.wrloaded
  {
    if rs != [] {
      RepliesKeepWrites(h, rs[..|rs| - 1]);
      SkipsKeepWrites(AfterReplies(h, rs[..|rs| - 1]), rs[|rs| - 1].skip);
    }
  }

  lemma {:induction false} SkipsKeepWrites(h: Host, ts: seq<Token>)
    requires HostValid(h)
    ensures var h' := AfterSkips(h, ts);
            h'.wtbl == h.wtbl && h'.wraddr == h.wraddr && h'.wrloaded == h.wrloaded
  {
    if ts != [] {
      SkipsKeepWrites(h, ts[..|ts| - 1]);
    }
  }

  // ---------------------------------------------------------------------------------------------
  // Sessions

  datatype World = World(h: Host, d: Device, o: Out)

  /** A read call carries what the bus answered and how the device chose to encode it. */
  datatype Call =
    | Write(a: Word, inc: bool, ws: seq<Word>)
    | Read(a: Word, inc: bool, ws: seq<Word>, rs: seq<Reply>)

  predicate SendsAddress(h: Host, a: Word) {
    !(h.addrSet && a == h.last)
  }

  /** What callers must observe -- no empty write, no request that ends in an eight-word block without
      increment, no read from the current address after a write has moved it -- and what the device
      guarantees: a legal reply stream, opened by an address codeword exactly when the address is
      new. */
  ghost predicate LegalCall(w: World, stale: bool, c: Call)
    requires HostValid(w.h)
  {
    && c.a % 4 == 0 && c.ws != []
    && (c.Read? ==>
          && (c.inc || |c.ws| % 512 != 8)
          && (stale ==> SendsAddress(w.h, c.a))
          && RepliesLegal(w.o.(waddr := c.a / 4), c.rs, c.ws, c.inc)
          && (Announced(c.rs[0].skip) <==> w.d.newAddr || SendsAddress(w.h, c.a)))
  }

  /** encode_address forgets the read table whenever it sends anything. */
  function ForRead(h: Host, a: Word): (h': Host)
    requires HostValid(h)
    ensures HostValid(h')
  {
    h.(rdaddr := if SendsAddress(h, a) then 0 else h.rdaddr)
  }

  function Sent(h: Host, c: Call): seq<char>
    requires HostValid(h) && c.a % 4 == 0 && c.ws != []
  {
    if c.Write? then WriteCall(h, c.a, c.inc, c.ws).sent
    else ReadCallSends(h, c.a, c.inc, |c.ws|)
  }

  ghost function After(w: World, stale: bool, c: Call): World
    requires HostValid(w.h) && LegalCall(w, stale, c)
  {
    var d' := Run(w.d, Sent(w.h, c));
    match c
    case Write(a, inc, ws) => World(WriteCall(w.h, a, inc, ws).host, d', w.o)
    case Read(a, inc, ws, rs) =>
      World(AfterReplies(ForRead(w.h, a), rs), d', OutReplies(w.o.(waddr := a / 4), rs))
  }

  function StaleAfter(h: Host, stale: bool, c: Call): bool {
    c.Write? && (stale || SendsAddress(h, c.a))
  }

  /** Host and device agree; the read table is covered, or else a write has moved the address since it was: then
      the host has emptied its table and the device will announce nothing. */
  ghost predicate Good(w: World, stale: bool) {
    && Synced(w.h, w.d) && Quiet(w.d)
    && (if stale then w.h.addrSet && w.h.rdaddr == 0 && !w.d.newAddr else Covers(w.h, w.o))
  }

  /** Host and device as they start, with whatever their tables and address registers hold. */
  function PowerUp(last: Word, wtbl: seq<Word>, rtbl: seq<Word>, waddr: int): World {
    World(Host(false, last, 0, false, wtbl, 0, rtbl), Device([], false, false, true, waddr, 0, map[], []), Out([], waddr))
  }

  lemma PowerUpGood(last: Word, wtbl: seq<Word>, rtbl: seq<Word>, waddr: int)
    requires |wtbl| == 512 && |rtbl| == 1024 && 0 <= waddr < WORD_LIMIT
    ensures Good(PowerUp(last, wtbl, rtbl, waddr), false)
  {
  }

  /** Everything the device did, address announcements aside. */
  function Traffic(es: seq<Event>): seq<Event> {
    if es == [] then [] else
    var n := |es| - 1;
    Traffic(es[..n]) + if es[n].EchoEv? then [] else [es[n]]
  }

  lemma {:induction false} TrafficConcat(s: seq<Event>, t: seq<Event>)
    ensures Traffic(s + t) == Traffic(s) + Traffic(t)
  {
    if t == [] {
      assert s + t == s;
    } else {
      var n := |t| - 1;
      assert (s + t)[..|s + t| - 1] == s + t[..n];
      TrafficConcat(s, t[..n]);
    }
  }

  lemma {:induction false} TrafficPlain(s: seq<Event>)
    requires forall e <- s :: !e.EchoEv?
    ensures Traffic(s) == s
  {
    if s != [] {
      assert s == s[..|s| - 1] + [s[|s| - 1]];
      TrafficPlain(s[..|s| - 1]);
    }
  }

  function NaiveCall(c: Call): seq<Event> {
    match c
    case Write(a, inc, ws) => NaiveWrites(a, inc, ws)
    case Read(a, inc, ws, _) => NaiveReads(a, inc, |ws|)
  }

  lemma WriteKeepsGood(w: World, stale: bool, c: Call)
    requires Good(w, stale) && LegalCall(w, stale, c) && c.Write?
    ensures var w' := After(w, stale, c);
            Good(w', StaleAfter(w.h, stale, c)) && w'.d.events == w.d.events + NaiveCall(c)
  {
    WriteCallRefinesLoop(w.h, w.d, c.a, c.inc, c.ws);
    AfterWordsKeeps(AtAddress(w.h, c.a), c.inc, c.ws);
    AddressCodeEmpty(w.h.addrSet, w.h.last, c.a);
  }

  lemma ReadReturns(w: World, stale: bool, c: Call)
    requires Good(w, stale) && LegalCall(w, stale, c) && c.Read?
    ensures var h1, o1 := ForRead(w.h, c.a), w.o.(waddr := c.a / 4);
            var h', o' := AfterReplies(h1, c.rs), OutReplies(o1, c.rs);
            && ReplyWords(h1, c.rs) == c.ws && Tracking(h', o')
            && BusAddr(o'.waddr) == Along(c.a, c.inc, |c.ws|)
            && h'.wtbl == w.h.wtbl && h'.wraddr == w.h.wraddr && h'.wrloaded == w.h.wrloaded
  {
    ReadStarts(w, stale, c);
    ReadReturnsAt(ForRead(w.h, c.a), w.o.(waddr := c.a / 4), c.a, c.inc, c.ws, c.rs);
  }

  lemma ReadReturnsAt(h: Host, o: Out, a: Word, inc: bool, ws: seq<Word>, rs: seq<Reply>)
    requires HostValid(h) && rs != [] && (Tracking(h, o) || Announced(rs[0].skip))
    requires a % 4 == 0 && o.waddr == a / 4 && RepliesLegal(o, rs, ws, inc)
    ensures var h', o' := AfterReplies(h, rs), OutReplies(o, rs);
            && ReplyWords(h, rs) == ws && Tracking(h', o')
            && BusAddr(o'.waddr) == Along(a, inc, |ws|)
            && h'.wtbl == h.wtbl && h'.wraddr == h.wraddr && h'.wrloaded == h.wrloaded
  {
    RepliesReturn(h, o, rs, ws, inc);
    RepliesKeepWrites(h, rs);
    RepliesAdvance(o, rs, ws, inc);
    AlongFrom(a, inc, |ws|, OutReplies(o, rs).waddr);
  }

  lemma AlongFrom(a: Word, inc: bool, n: nat, waddr: int)
    requires a % 4 == 0 && waddr == a / 4 + if inc then n else 0
    ensures BusAddr(waddr) == Along(a, inc, n)
  {
    AlignedBusAddr(a);
    BusAddrAlong(a / 4, if inc then n else 0);
  }

  lemma ReadStarts(w: World, stale: bool, c: Call)
    requires Good(w, stale) && LegalCall(w, stale, c) && c.Read?
    ensures Tracking(ForRead(w.h, c.a), w.o.(waddr := c.a / 4)) || Announced(c.rs[0].skip)
  {
    AlignedBusAddr(c.a);
  }

  lemma AlignedBusAddr(a: Word)
    requires a % 4 == 0
    ensures BusAddr(a / 4) == a
  {
  }

  /** Agreement is about the table and the position alone. */
  lemma SyncedByParts(h: Host, d: Device, h': Host, d': Device)
    requires Synced(h, d) && HostValid(h')
    requires h'.wtbl == h.wtbl && h'.wraddr == h.wraddr && h'.wrloaded == h.wrloaded
    requires d'.partial == [] && d'.wr == d.wr && d'.dict == d.dict
    requires 0 <= d'.waddr < WORD_LIMIT && BusAddr(d'.waddr) == h'.last
    ensures Synced(h', d')
  {
    assert forall slot: nat :: Written(h', slot) == Written(h, slot);
  }

  lemma ReadDevice(w: World, c: Call)
    requires Synced(w.h, w.d) && Quiet(w.d) && c.Read? && c.a % 4 == 0 && c.ws != []
    requires c.inc || |c.ws| % 512 != 8
    ensures var d' := Run(w.d, Sent(w.h, c));
            && Quiet(d') && d'.wr == w.d.wr && d'.dict == w.d.dict
            && 0 <= d'.waddr < WORD_LIMIT && BusAddr(d'.waddr) == Along(c.a, c.inc, |c.ws|)
            && Traffic(d'.events) == Traffic(w.d.events) + NaiveCall(c)
  {
    ReadCallRefinesLoop(w.h, w.d, c.a, c.inc, |c.ws|);
    var echo := if w.d.newAddr || SendsAddress(w.h, c.a) then [EchoEv(c.a)] else [];
    TrafficEcho(w.d.events, echo, NaiveCall(c));
  }

  lemma ReadKeepsGood(w: World, stale: bool, c: Call)
    requires Good(w, stale) && LegalCall(w, stale, c) && c.Read?
    ensures var w' := After(w, stale, c);
            Good(w', false) && Traffic(w'.d.events) == Traffic(w.d.events) + NaiveCall(c)
  {
    ReadReturns(w, stale, c);
    ReadDevice(w, c);
    var w' := After(w, stale, c);
    SyncedByParts(w.h, w.d, w'.h, w'.d);
  }

  lemma TrafficEcho(es: seq<Event>, echo: seq<Event>, t: seq<Event>)
    requires echo == [] || (|echo| == 1 && echo[0].EchoEv?)
    requires forall e <- t :: !e.EchoEv?
    ensures Traffic(es + echo + t) == Traffic(es) + t
  {
    TrafficConcat(es + echo, t);
    TrafficPlain(t);
    assert Traffic(es + echo) == Traffic(es) by {
      if echo == [] {
        assert es + echo == es;
      } else {
        assert (es + echo)[..|es + echo| - 1] == es;
      }
    }
  }

  /** One call, whichever it is. */
  lemma CallRefinesLoop(w: World, stale: bool, c: Call)
    requires Good(w, stale) && LegalCall(w, stale, c)
    ensures var w' := After(w, stale, c);
            && Good(w', StaleAfter(w.h, stale, c))
            && Traffic(w'.d.events) == Traffic(w.d.events) + NaiveCall(c)
    ensures c.Read? ==> ReplyWords(ForRead(w.h, c.a), c.rs) == c.ws
  {
    if c.Write? {
      WriteKeepsGood(w, stale, c);
      TrafficConcat(w.d.events, NaiveCall(c));
      TrafficPlain(NaiveCall(c));
    } else {
      ReadKeepsGood(w, stale, c);
      ReadReturns(w, stale, c);
    }
  }

  ghost predicate LegalSession(w: World, stale: bool, cs: seq<Call>)
    requires HostValid(w.h)
    decreases |cs|
  {
    cs == [] ||
    (LegalCall(w, stale, cs[0]) &&
     var w' := After(w, stale, cs[0]);
     HostValid(w'.h) && LegalSession(w', StaleAfter(w.h, stale, cs[0]), cs[1..]))
  }

  ghost function Final(w: World, stale: bool, cs: seq<Call>): World
    requires HostValid(w.h) && LegalSession(w, stale, cs)
    decreases |cs|
  {
    if cs == [] then w
    else Final(After(w, stale, cs[0]), StaleAfter(w.h, stale, cs[0]), cs[1..])
  }

  /** What each call handed its caller. */
  ghost function Returned(w: World, stale: bool, cs: seq<Call>): seq<seq<Word>>
    requires HostValid(w.h) && LegalSession(w, stale, cs)
    decreases |cs|
  {
    if cs == [] then [] else
    var c := cs[0];
    [if c.Read? then ReplyWords(ForRead(w.h, c.a), c.rs) else []]
    + Returned(After(w, stale, c), StaleAfter(w.h, stale, c), cs[1..])
  }

  function Wanted(cs: seq<Call>): seq<seq<Word>> {
    if cs == [] then [] else [if cs[0].Read? then cs[0].ws else []] + Wanted(cs[1..])
  }

  function NaiveSession(cs: seq<Call>): seq<Event> {
    if cs == [] then [] else NaiveCall(cs[0]) + NaiveSession(cs[1..])
  }

  /** Over any legal session the compressed bus is the plain one: the device's bus traffic is that of
      the plain loops, call after call, and every read returns what the bus answered. */
  lemma {:induction false} SessionRefinesLoops(w: World, stale: bool, cs: seq<Call>)
    requires Good(w, stale) && LegalSession(w, stale, cs)
    ensures Traffic(Final(w, stale, cs).d.events) == Traffic(w.d.events) + NaiveSession(cs)
    ensures Returned(w, stale, cs) == Wanted(cs)
    decreases |cs|
  {
    if cs != [] {
      var c := cs[0];
      var w' := After(w, stale, c);
      CallRefinesLoop(w, stale, c);
      var stale' := StaleAfter(w.h, stale, c);
      SessionRefinesLoops(w', stale', cs[1..]);
      Fold.Extend(Traffic(w.d.events), Traffic(w'.d.events),
                  Traffic(Final(w', stale', cs[1..]).d.events), NaiveCall(c), NaiveSession(cs[1..]));
    }
  }

  /** From power up, whatever was in the tables: the traffic is exactly that of the plain loops. */
  lemma SessionFromPowerUp(last: Word, wtbl: seq<Word>, rtbl: seq<Word>, waddr: int, cs: seq<Call>)
    requires |wtbl| == 512 && |rtbl| == 1024 && 0 <= waddr < WORD_LIMIT
    requires LegalSession(PowerUp(last, wtbl, rtbl, waddr), false, cs)
    ensures var w := PowerUp(last, wtbl, rtbl, waddr);
            Traffic(Final(w, false, cs).d.events) == NaiveSession(cs) && Returned(w, false, cs) == Wanted(cs)
  {
    var w := PowerUp(last, wtbl, rtbl, waddr);
    PowerUpGood(last, wtbl, rtbl, waddr);
    SessionRefinesLoops(w, false, cs);
    assert Traffic(w.d.events) + NaiveSession(cs) == NaiveSession(cs);
  }

  // ---------------------------------------------------------------------------------------------
  // Why a read must not follow a moving write to the same address

  ghost function FinalStale(w: World, stale: bool, cs: seq<Call>): bool
    requires HostValid(w.h) && LegalSession(w, stale, cs)
    decreases |cs|
  {
    if cs == [] then stale
    else FinalStale(After(w, stale, cs[0]), StaleAfter(w.h, stale, cs[0]), cs[1..])
  }

  lemma {:induction false} SessionKeepsGood(w: World, stale: bool, cs: seq<Call>)
    requires Good(w, stale) && LegalSession(w, stale, cs)
    ensures Good(Final(w, stale, cs), FinalStale(w, stale, cs))
    decreases |cs|
  {
    if cs != [] {
      CallRefinesLoop(w, stale, cs[0]);
      SessionKeepsGood(After(w, stale, cs[0]), StaleAfter(w.h, stale, cs[0]), cs[1..]);
    }
  }

  /** The host expands every data codeword the device may send to the device's word. */
  ghost predicate Expands(h: Host, o: Out)
    requires HostValid(h)
  {
    forall t, v :: DataLegal(o, t, v) ==> DataValue(h, t) == v
  }

  /** The slots at the top of the host's table hold the device's words. */
  ghost predicate TopHolds(h: Host, o: Out)
    requires HostValid(h)
  {
    forall k :: 1 <= k <= 521 && k <= |o.hist| ==> h.rtbl[ReadSlot(0, k)] == o.hist[|o.hist| - k]
  }

  lemma StaleTable(w: World)
    requires Good(w, true)
    ensures !SendsAddress(w.h, w.h.last) && !w.d.newAddr && (Expands(w.h, w.o) <==> TopHolds(w.h, w.o))
  {
    CoversIffDecodes(w.h, w.o);
  }

  /** After any session whose last calls were writes, one of which moved the address, the host has forgotten its
      read table, but the device keeps its own and will announce nothing: a read from the current address
      is expanded correctly for every legal reply if and only if the slots at the top of the host's table
      happen to hold the device's words. */
  lemma MovingWriteLosesTable(w: World, stale: bool, cs: seq<Call>)
    requires Good(w, stale) && LegalSession(w, stale, cs) && FinalStale(w, stale, cs)
    ensures var w' := Final(w, stale, cs);
            && HostValid(w'.h) && !SendsAddress(w'.h, w'.h.last) && !w'.d.newAddr
            && (Expands(w'.h, w'.o) <==> TopHolds(w'.h, w'.o))
  {
    SessionKeepsGood(w, stale, cs);
    StaleTable(Final(w, stale, cs));
  }

  /** One read, of v from b. */
  function ReadOne(b: Word, v: Word): Call {
    Read(b, false, [v], [Reply([AddrLong(b / 4)], Raw(v, false))])
  }

  lemma FirstRead(w: World, b: Word, v: Word)
    requires Good(w, false) && b % 4 == 0 && !w.h.addrSet && w.h.rdaddr == 0
    ensures LegalCall(w, false, ReadOne(b, v))
    ensures var w' := After(w, false, ReadOne(b, v));
            && w'.o.hist == [v] && w'.h.rtbl == w.h.rtbl[0 := v] && w'.h.addrSet && w'.h.last == b
  {
    FirstReply(w.h, w.o.(waddr := b / 4), b, v);
    OneReply(ForRead(w.h, b), w.o.(waddr := b / 4), Reply([AddrLong(b / 4)], Raw(v, false)), v, false);
  }

  /** An address codeword and a raw word, to a host with an empty table. */
  lemma FirstReply(h: Host, o: Out, b: Word, v: Word)
    requires HostValid(h) && h.rdaddr == 0 && b % 4 == 0 && o.waddr == b / 4
    ensures var r := Reply([AddrLong(b / 4)], Raw(v, false));
            && Announced(r.skip) && ReplyLegal(o, r, v, false) && OutReply(o, r).hist == [v]
            && var h' := AfterReply(h, r); h'.rtbl == h.rtbl[0 := v] && h'.addrSet && h'.last == b
  {
    var skip := [AddrLong(b / 4)];
    assert skip[..0] == [] && AddrLong(b / 4) in skip;
    assert OutSkips(o, []) == o && OutSkips(o, skip) == o.(hist := []);
    assert AfterSkips(h, []) == h && AfterSkips(h, skip) == AfterSkip(h, AddrLong(b / 4));
  }

  lemma OneReply(h: Host, o: Out, r: Reply, v: Word, inc: bool)
    requires HostValid(h) && ReplyLegal(o, r, v, inc)
    ensures RepliesLegal(o, [r], [v], inc)
    ensures AfterReplies(h, [r]) == AfterReply(h, r) && OutReplies(o, [r]) == OutReply(o, r)
  {
    var rs, ws := [r], [v];
    assert rs[..0] == [] && ws[..0] == [];
    assert RepliesLegal(o, [], [], inc) && OutReplies(o, []) == o && AfterReplies(h, []) == h;
  }

  lemma MovingWrite(w: World, a: Word, x: Word)
    requires Good(w, false) && a % 4 == 0 && SendsAddress(w.h, a)
    ensures var w' := After(w, false, Write(a, false, [x]));
            HostValid(w'.h) && w'.h.rdaddr == 0 && w'.h.rtbl == w.h.rtbl && w'.o == w.o
  {
    AddressCodeEmpty(w.h.addrSet, w.h.last, a);
    AfterWordsKeeps(AtAddress(w.h, a), false, [x]);
  }

  /** A whole session from power up that goes wrong: v is read from one address, another is written, and a read from
      there finds v again.  The device answers "same as the last word", and the host returns whatever the
      last slot of its table held when it started. */
  lemma StaleWordReturned(last: Word, wtbl: seq<Word>, rtbl: seq<Word>, waddr: int, b: Word, v: Word, a: Word, x: Word)
    requires |wtbl| == 512 && |rtbl| == 1024 && 0 <= waddr < WORD_LIMIT && a % 4 == 0 && b % 4 == 0 && a != b
    ensures var w := PowerUp(last, wtbl, rtbl, waddr);
            var cs := [ReadOne(b, v), Write(a, false, [x])];
            var r := Reply([], Last(false));
            && LegalSession(w, false, cs) && HostValid(Final(w, false, cs).h)
            && ReplyLegal(Final(w, false, cs).o, r, v, false) && ReplyWord(Final(w, false, cs).h, r) == rtbl[1023]
  {
    var w := PowerUp(last, wtbl, rtbl, waddr);
    PowerUpGood(last, wtbl, rtbl, waddr);
    FirstRead(w, b, v);
    CallRefinesLoop(w, false, ReadOne(b, v));
    MovingWrite(After(w, false, ReadOne(b, v)), a, x);
    TwoCalls(w, ReadOne(b, v), Write(a, false, [x]));
    StaleReply(After(After(w, false, ReadOne(b, v)), false, Write(a, false, [x])), v);
  }

  lemma TwoCalls(w: World, c1: Call, c2: Call)
    requires HostValid(w.h) && LegalCall(w, false, c1) && HostValid(After(w, false, c1).h) && c1.Read?
    requires LegalCall(After(w, false, c1), false, c2) && HostValid(After(After(w, false, c1), false, c2).h)
    ensures LegalSession(w, false, [c1, c2]) && Final(w, false, [c1, c2]) == After(After(w, false, c1), false, c2)
  {
    var cs := [c1, c2];
    assert cs[1..] == [c2];
    OneCall(After(w, false, c1), c2);
  }

  lemma OneCall(w: World, c: Call)
    requires HostValid(w.h) && LegalCall(w, false, c) && HostValid(After(w, false, c).h)
    ensures LegalSession(w, false, [c]) && Final(w, false, [c]) == After(w, false, c)
  {
    var cs := [c];
    assert cs[1..] == [];
  }

  lemma StaleReply(w: World, v: Word)
    requires HostValid(w.h) && w.h.rdaddr == 0 && w.o.hist == [v]
    ensures var r := Reply([], Last(false)); ReplyLegal(w.o, r, v, false) && ReplyWord(w.h, r) == w.h.rtbl[1023]
  {
    assert OutSkips(w.o, []) == w.o;
  }
}
