/** The packet stack of sw/rv32: UDP (RFC 768) inside IP (section 3.1 of RFC 791) inside the device's short
    Ethernet header, built from the inside out and taken apart from the outside in. */
module Packets {
  import opened Checksum
  import Fold

  const EtherIp: nat := 0x0800
  const ProtoUdp: nat := 17

  /** n bytes of a number, most significant first. */
  function Big(v: nat, n: nat): (b: seq<Byte>)
    ensures |b| == n
  {
    if n == 0 then [] else Big(v / 256, n - 1) + [v % 256]
  }

  function Num(b: seq<Byte>): nat {
    if b == [] then 0
    else
      var hi: nat, lo: nat := Num(b[..|b| - 1]), b[|b| - 1];
      256 * hi + lo
  }

  function Limit(n: nat): nat {
    if n == 0 then 1 else 256 * Limit(n - 1)
  }

  lemma {:induction false} BigNum(v: nat, n: nat)
    requires v < Limit(n)
    ensures Num(Big(v, n)) == v
  {
    if n > 0 {
      BigNum(v / 256, n - 1);
      assert Big(v, n)[..n - 1] == Big(v / 256, n - 1);
    }
  }

  // ---------------------------------------------------------------------------------------------
  // Headers

  function EthHeader(mac: nat, ethertype: nat): (h: seq<Byte>)
    ensures |h| == 8
  {
    Big(mac, 6) + Big(ethertype, 2)
  }

  /** An IP header with this in its checksum field. */
  function IpFields(len: nat, id: nat, proto: nat, src: nat, dest: nat, sum: nat): (h: seq<Byte>)
    ensures |h| == 20
  {
    [0x45, 0x00] + Big(len, 2) + Big(id, 2) + [0x00, 0x00, 0x80, proto % 256] + Big(sum, 2) + Big(src, 4) + Big(dest, 4)
  }

  function IpSum(len: nat, id: nat, proto: nat, src: nat, dest: nat): nat {
    0xffff - Ones(Pairs(IpFields(len, id, proto, src, dest, 0)), 0xffff)
  }

  function IpHeader(len: nat, id: nat, proto: nat, src: nat, dest: nat): (h: seq<Byte>)
    ensures |h| == 20
  {
    OnesBounds(Pairs(IpFields(len, id, proto, src, dest, 0)), 0xffff);
    IpFields(len, id, proto, src, dest, IpSum(len, id, proto, src, dest))
  }

  function UdpHeader(sport: nat, dport: nat, len: nat): (h: seq<Byte>)
    ensures |h| == 8
  {
    Big(sport, 2) + Big(dport, 2) + Big(len, 2) + [0, 0]
  }

  lemma {:induction false} PairsConcat(a: seq<Byte>, b: seq<Byte>)
    requires |a| % 2 == 0 && |b| % 2 == 0
    ensures Pairs(a + b) == Pairs(a) + Pairs(b)
  {
    if b == [] {
      assert a + b == a;
    } else {
      var c := a + b;
      assert c[..|c| - 2] == a + b[..|b| - 2];
      PairsConcat(a, b[..|b| - 2]);
    }
  }

  lemma PairsBig(v: nat)
    requires v < 0x1_0000
    ensures Pairs(Big(v, 2)) == v
  {
    var b := Big(v, 2);
    assert Big(v / 256, 1) == Big(v / 256 / 256, 0) + [v / 256 % 256];
    assert b == [v / 256 % 256, v % 256];
    assert b[..0] == [];
  }

  /** The sum field adds exactly itself to the sum over the header. */
  lemma SumField(len: nat, id: nat, proto: nat, src: nat, dest: nat, sum: nat)
    requires sum < 0x1_0000
    ensures Pairs(IpFields(len, id, proto, src, dest, sum)) == Pairs(IpFields(len, id, proto, src, dest, 0)) + sum
  {
    var head: seq<Byte> := [0x45, 0x00] + Big(len, 2) + Big(id, 2) + [0x00, 0x00, 0x80, proto % 256];
    var tail := Big(src, 4) + Big(dest, 4);
    SumBetween(head, sum, tail);
    SumBetween(head, 0, tail);
    assert IpFields(len, id, proto, src, dest, sum) == head + Big(sum, 2) + tail;
    assert IpFields(len, id, proto, src, dest, 0) == head + Big(0, 2) + tail;
  }

  lemma SumBetween(head: seq<Byte>, sum: nat, tail: seq<Byte>)
    requires |head| % 2 == 0 && |tail| % 2 == 0 && sum < 0x1_0000
    ensures Pairs(head + Big(sum, 2) + tail) == Pairs(head) + sum + Pairs(tail)
  {
    PairsConcat(head + Big(sum, 2), tail);
    PairsConcat(head, Big(sum, 2));
    PairsBig(sum);
  }

  /** A header that ip_set has filled in checks to zero, as section 1 of RFC 1071 asks. */
  lemma HeaderChecks(len: nat, id: nat, proto: nat, src: nat, dest: nat)
    ensures 0xffff - Ones(Pairs(IpHeader(len, id, proto, src, dest)) % W32, 0xffff) == 0
  {
    BytesFit(IpHeader(len, id, proto, src, dest));
    var s := Pairs(IpFields(len, id, proto, src, dest, 0));
    ComplementFills(s);
    SumField(len, id, proto, src, dest, 0xffff - Ones(s, 0xffff));
  }

  /** A whole packet on the wire. */
  function Frame(mac: nat, src: nat, dest: nat, id: nat, sport: nat, dport: nat, payload: seq<Byte>): seq<Byte> {
    EthHeader(mac, EtherIp) + IpHeader(28 + |payload|, id, ProtoUdp, src, dest)
    + UdpHeader(sport, dport, 8 + |payload|) + payload
  }

  // ---------------------------------------------------------------------------------------------
  // The packet object

  class Packet {
    const raw: array<Byte>
    var user: nat
    var length: nat
    var usage: nat

    ghost predicate Valid()
      reads this
    {
      user + length == raw.Length
    }

    /** The bytes of the current protocol layer. */
    ghost function Contents(): seq<Byte>
      requires Valid()
      reads this, raw
    {
      raw[user..]
    }

    /** new_pkt, and all of it in view. */
    constructor (bytes: seq<Byte>)
      ensures Valid() && fresh(raw) && user == 0 && raw[..] == bytes && usage == 1
    {
      raw := new Byte[|bytes|](i requires 0 <= i < |bytes| => bytes[i]);
      user, length, usage := 0, |bytes|, 1;
    }

    method Reset()
      modifies this`user, this`length
      ensures Valid() && user == 0 && length == raw.Length
    {
      user, length := 0, raw.Length;
    }

    method Free()
      modifies this`usage
      ensures usage == if old(usage) > 0 then old(usage) - 1 else 0
    {
      if usage > 0 {
        usage := usage - 1;
      }
    }

    /** Step inside a header, or back out. */
    method Enter(n: nat)
      requires Valid() && n <= length
      modifies this`user, this`length
      ensures Valid() && user == old(user) + n && Contents() == old(Contents())[n..]
    {
      user, length := user + n, length - n;
    }

    /** The payload, put in place. */
    method Fill(payload: seq<Byte>)
      requires Valid() && length == |payload|
      modifies raw
      ensures Contents() == payload
    {
      for i := 0 to |payload|
        invariant raw[user..user + i] == payload[..i]
      {
        raw[user + i] := payload[i];
        assert raw[user..user + i] == payload[..i];
        assert raw[user..user + i + 1] == raw[user..user + i] + [payload[i]];
        assert payload[..i + 1] == payload[..i] + [payload[i]];
      }
      assert payload[..|payload|] == payload && raw[user..user + |payload|] == raw[user..];
    }

    /** Step out, and write the header there. */
    method Wrap(header: seq<Byte>)
      requires Valid() && |header| <= user
      modifies this`user, this`length, raw
      ensures Valid() && user == old(user) - |header| && Contents() == header + old(Contents())
    {
      user, length := user - |header|, length + |header|;
      for i := 0 to |header|
        invariant user == old(user) - |header| && length == old(length) + |header|
        invariant raw[user..user + i] == header[..i]
        invariant raw[old(user)..] == old(raw[user..])
      {
        raw[user + i] := header[i];
        assert raw[user..user + i] == header[..i];
        assert raw[user..user + i + 1] == raw[user..user + i] + [header[i]];
        assert header[..i + 1] == header[..i] + [header[i]];
      }
      assert header[..|header|] == header;
      Split(raw[..], user, old(user));
    }
  }

  lemma Split(s: seq<Byte>, i: nat, j: nat)
    requires i <= j <= |s|
    ensures s[i..] == s[i..j] + s[j..]
  {
  }

  /** A packet with room for this much payload, and only the payload in view. */
  method NewUdpPkt(len: nat) returns (pkt: Packet)
    ensures fresh(pkt) && fresh(pkt.raw) && pkt.Valid() && pkt.user == 36 && pkt.length == len && pkt.usage == 1
  {
    pkt := new Packet(seq(len + 8 + 20 + 8, _ => 0));
    assert pkt.length == len + 36;
    pkt.Enter(8);
    pkt.Enter(20);
    pkt.Enter(8);
  }

  /** Through UDP, IP and Ethernet, each header is put in front of what is there.  The packet goes out whole
      if there is room for the other headers and the address is known, and not at all otherwise; either
      way one user is done with it. */
  method TxUdp(pkt: Packet, mac: Lookup, src: nat, dest: nat, id: nat, sport: nat, dport: nat)
    returns (sent: seq<seq<Byte>>)
    requires pkt.Valid() && pkt.user >= 8
    modifies pkt, pkt.raw
    ensures pkt.Valid() && pkt.usage == if old(pkt.usage) > 0 then old(pkt.usage) - 1 else 0
    ensures sent == if old(pkt.user) >= 36 && mac.Found?
                    then [Frame(mac.mac, src, dest, id, sport, dport, old(pkt.Contents()))] else []
    ensures sent != [] ==> pkt.user == old(pkt.user) - 36 && sent[0] == pkt.Contents()
  {
    ghost var payload := pkt.Contents();
    pkt.Wrap(UdpHeader(sport, dport, pkt.length + 8));
    sent := [];
    if pkt.user >= 28 {
      pkt.Wrap(IpHeader(pkt.length + 20, id, ProtoUdp, src, dest));
      if mac.Found? {
        pkt.Wrap(EthHeader(mac.mac, EtherIp));
        Layers(EthHeader(mac.mac, EtherIp), IpHeader(28 + |payload|, id, ProtoUdp, src, dest),
               UdpHeader(sport, dport, 8 + |payload|), payload);
        assert pkt.Contents() == Frame(mac.mac, src, dest, id, sport, dport, payload);
        sent := [pkt.raw[pkt.user..pkt.user + pkt.length]];
        assert sent[0] == pkt.Contents();
      }
    }
    pkt.Free();
  }

  /** What the address resolution table answers. */
  datatype Lookup = Found(mac: nat) | Unknown

  lemma Layers(a: seq<Byte>, b: seq<Byte>, c: seq<Byte>, d: seq<Byte>)
    ensures a + (b + (c + d)) == a + b + c + d
  {
  }

  // ---------------------------------------------------------------------------------------------
  // Taking a packet apart

  datatype Fields = Fields(mac: nat, ethertype: nat, src: nat, dest: nat, proto: nat, sport: nat, dport: nat,
                           payload: seq<Byte>)

  /** The bytes from i to j, as a number. */
  function Field(p: seq<Byte>, i: nat, j: nat): nat
    requires i <= j <= |p|
  {
    Num(p[i..j])
  }

  lemma FieldIs(p: seq<Byte>, i: nat, v: nat, n: nat)
    requires i + n <= |p| && p[i..i + n] == Big(v, n) && v < Limit(n)
    ensures Field(p, i, i + n) == v
  {
    BigNum(v, n);
  }

  /** What rx_udp makes of the length in the header and the length that arrived. */
  function UdpLength(ln: nat, arrived: nat): (n: nat)
    requires arrived >= 8
    ensures n <= arrived - 8
  {
    if ln <= 8 then 0 else if arrived > ln then ln - 8 else arrived - 8
  }

  /** The length of the IP header, with its options. */
  function IpLength(p: seq<Byte>): nat
    requires |p| >= 28
  {
    var b: nat := p[8];
    b % 16 * 4
  }

  /** A version 4 header of k words is skipped whole. */
  lemma OptionsSkipped(p: seq<Byte>, k: nat)
    requires |p| >= 28 && k < 16 && p[8] == 0x40 + k
    ensures IpLength(p) == 4 * k
  {
  }

  /** The fields of a received packet whose UDP header starts at o. */
  function Taken(p: seq<Byte>, o: nat): Fields
    requires |p| >= 28 && o + 8 <= |p|
  {
    Fields(Field(p, 0, 6), Field(p, 6, 8), Field(p, 20, 24), Field(p, 24, 28), p[17], Field(p, o, o + 2), Field(p, o + 2, o + 4),
           Payload(p, o, Field(p, o + 4, o + 6)))
  }

  function Payload(p: seq<Byte>, o: nat, ln: nat): seq<Byte>
    requires o + 8 <= |p|
  {
    p[o + 8..o + 8 + UdpLength(ln, |p| - o)]
  }

  /** A payload is as long as its header says, or as much of it as has arrived; a header that says eight or less has
      none. */
  lemma PayloadIs(p: seq<Byte>, o: nat, ln: nat)
    requires o + 8 <= |p|
    ensures var n := if ln <= 8 then 0 else if ln <= |p| - o then ln - 8 else |p| - o - 8;
            Payload(p, o, ln) == p[o + 8..o + 8 + n]
  {
  }

  /** Take a received packet apart, wherever its user area was left; the IP header may have options. */
  method RxUdp(pkt: Packet) returns (f: Fields)
    requires pkt.raw.Length >= 28 && pkt.raw.Length >= 16 + IpLength(pkt.raw[..])
    modifies pkt`user, pkt`length
    ensures f == Taken(pkt.raw[..], 8 + IpLength(pkt.raw[..]))
  {
    pkt.Reset();
    var p := pkt.raw[..];
    var mac, ethertype := Field(p, 0, 6), Field(p, 6, 8);
    pkt.Enter(8);
    var src, dest, proto := Field(p, pkt.user + 12, pkt.user + 16), Field(p, pkt.user + 16, pkt.user + 20), p[pkt.user + 9];
    pkt.Enter(IpLength(p));
    var sport, dport, payload := RxHeader(pkt, p);
    f := Fields(mac, ethertype, src, dest, proto, sport, dport, payload);
  }

  /** udp_sport, udp_dport and rx_udp, with the user area at the UDP header. */
  method RxHeader(pkt: Packet, p: seq<Byte>) returns (sport: nat, dport: nat, payload: seq<Byte>)
    requires pkt.Valid() && p == pkt.raw[..] && pkt.user + 8 <= |p|
    modifies pkt`user, pkt`length
    ensures var o := old(pkt.user);
            sport == Field(p, o, o + 2) && dport == Field(p, o + 2, o + 4) && payload == Payload(p, o, Field(p, o + 4, o + 6))
  {
    sport, dport := Field(p, pkt.user, pkt.user + 2), Field(p, pkt.user + 2, pkt.user + 4);
    var ln := Field(p, pkt.user + 4, pkt.user + 6);
    pkt.user := pkt.user + 8;
    if ln <= 8 {
      pkt.length := 0;
    } else if pkt.length > ln {
      pkt.length := ln - 8;
    } else {
      pkt.length := pkt.length - 8;
    }
    payload := p[pkt.user..pkt.user + pkt.length];
  }

  /** Where everything is in a frame, with any padding after it. */
  lemma FrameParts(mac: nat, src: nat, dest: nat, id: nat, sport: nat, dport: nat, payload: seq<Byte>, pad: seq<Byte>)
    ensures var p := Frame(mac, src, dest, id, sport, dport, payload) + pad;
            && |p| == 36 + |payload| + |pad|
            && p[0..6] == Big(mac, 6) && p[6..8] == Big(EtherIp, 2) && p[8] == 0x45 && p[17] == ProtoUdp
            && p[20..24] == Big(src, 4) && p[24..28] == Big(dest, 4)
            && p[28..30] == Big(sport, 2) && p[30..32] == Big(dport, 2) && p[32..34] == Big(8 + |payload|, 2)
            && p[36..36 + |payload|] == payload
  {
    var e, i, u := EthHeader(mac, EtherIp), IpHeader(28 + |payload|, id, ProtoUdp, src, dest),
                   UdpHeader(sport, dport, 8 + |payload|);
    var p := Frame(mac, src, dest, id, sport, dport, payload) + pad;
    assert p[0..8] == e && p[8..28] == i && p[28..36] == u;
    assert p[0..6] == e[0..6] && p[6..8] == e[6..8];
    assert p[20..24] == i[12..16] && p[24..28] == i[16..20] && p[17] == i[9] && p[8] == i[0];
    assert p[28..30] == u[0..2] && p[30..32] == u[2..4] && p[32..34] == u[4..6];
  }

  /** What the headers of a frame say, field by field: version and header length, the length of all that follows the
      Ethernet header, the identification, no flags, a time to live of 128, a header that checks to zero, and a UDP
      header with its own length and no checksum. */
  ghost predicate FrameSays(p: seq<Byte>, id: nat, size: nat) {
    && |p| >= 36 && p[6] == 0x08 && p[7] == 0x00 && p[8] == 0x45 && p[9] == 0x00
    && Field(p, 10, 12) == 28 + size && Field(p, 12, 14) == id && p[14] == 0 && p[15] == 0 && p[16] == 128 && p[17] == 17
    && 0xffff - Ones(Pairs(p[8..28]) % W32, 0xffff) == 0
    && Field(p, 32, 34) == 8 + size && p[34] == 0 && p[35] == 0
  }

  lemma FrameHeaders(mac: nat, src: nat, dest: nat, id: nat, sport: nat, dport: nat, payload: seq<Byte>, pad: seq<Byte>)
    requires id < 0x1_0000 && 28 + |payload| < 0x1_0000
    ensures FrameSays(Frame(mac, src, dest, id, sport, dport, payload) + pad, id, |payload|)
  {
    var p := Frame(mac, src, dest, id, sport, dport, payload) + pad;
    var e, i, u := EthHeader(mac, EtherIp), IpHeader(28 + |payload|, id, ProtoUdp, src, dest),
                   UdpHeader(sport, dport, 8 + |payload|);
    assert p[0..8] == e && p[8..28] == i && p[28..36] == u;
    HeaderChecks(28 + |payload|, id, ProtoUdp, src, dest);
    TwoBytes(EtherIp);
    assert p[6] == e[6] && p[7] == e[7];
    IpSays(28 + |payload|, id, ProtoUdp, src, dest, IpSum(28 + |payload|, id, ProtoUdp, src, dest));
    SaysSo(p, i, u, id, |payload|);
  }

  lemma SaysSo(p: seq<Byte>, i: seq<Byte>, u: seq<Byte>, id: nat, size: nat)
    requires |p| >= 36 && p[6] == 0x08 && p[7] == 0x00 && |i| == 20 && |u| == 8 && p[8..28] == i && p[28..36] == u
    requires i[0] == 0x45 && i[1] == 0 && i[2..4] == Big(28 + size, 2) && i[4..6] == Big(id, 2)
    requires i[6] == 0 && i[7] == 0 && i[8] == 0x80 && i[9] == 17 && u[4..6] == Big(8 + size, 2) && u[6] == 0 && u[7] == 0
    requires id < 0x1_0000 && 28 + size < 0x1_0000 && 0xffff - Ones(Pairs(i) % W32, 0xffff) == 0
    ensures FrameSays(p, id, size)
  {
    assert Limit(2) == 0x1_0000;
    InIp(p, i);
    InUdp(p, u);
    FieldIs(p, 10, 28 + size, 2);
    FieldIs(p, 12, id, 2);
    FieldIs(p, 32, 8 + size, 2);
  }

  lemma InIp(p: seq<Byte>, i: seq<Byte>)
    requires |p| >= 36 && |i| == 20 && p[8..28] == i
    ensures p[8] == i[0] && p[9] == i[1] && p[10..12] == i[2..4] && p[12..14] == i[4..6]
    ensures p[14] == i[6] && p[15] == i[7] && p[16] == i[8] && p[17] == i[9]
  {
    Fold.Slice2(p, 8, 28, 2, 4);
    Fold.Slice2(p, 8, 28, 4, 6);
  }

  lemma InUdp(p: seq<Byte>, u: seq<Byte>)
    requires |p| >= 36 && |u| == 8 && p[28..36] == u
    ensures p[32..34] == u[4..6] && p[34] == u[6] && p[35] == u[7]
  {
    Fold.Slice2(p, 28, 36, 4, 6);
  }

  lemma TwoBytes(v: nat)
    ensures Big(v, 2) == [v / 256 % 256, v % 256]
  {
    assert Big(v / 256, 1) == Big(v / 256 / 256, 0) + [v / 256 % 256];
  }

  lemma IpSays(len: nat, id: nat, proto: nat, src: nat, dest: nat, sum: nat)
    requires proto < 256
    ensures var i := IpFields(len, id, proto, src, dest, sum);
            && i[0] == 0x45 && i[1] == 0 && i[2..4] == Big(len, 2) && i[4..6] == Big(id, 2)
            && i[6] == 0 && i[7] == 0 && i[8] == 0x80 && i[9] == proto
  {
  }

  /** Whatever is sent, the receiver gets the same payload, ports, addresses and protocol, however much
      padding the wire adds. */
  method RoundTrip(mac: nat, src: nat, dest: nat, id: nat, sport: nat, dport: nat, payload: seq<Byte>, pad: seq<Byte>)
    returns (f: Fields, frame: seq<Byte>)
    requires mac < Limit(6) && src < Limit(4) && dest < Limit(4) && sport < Limit(2) && dport < Limit(2)
    requires id < 0x1_0000 && 28 + |payload| < 0x1_0000
    ensures f == Fields(mac, EtherIp, src, dest, ProtoUdp, sport, dport, payload)
    ensures FrameSays(frame, id, |payload|) && |frame| == Field(frame, 10, 12) + 8 + |pad|
  {
    var out := NewUdpPkt(|payload|);
    out.Fill(payload);
    var sent := TxUdp(out, Found(mac), src, dest, id, sport, dport);
    frame := sent[0] + pad;
    FrameHeaders(mac, src, dest, id, sport, dport, payload, pad);
    var pkt := new Packet(frame);
    f := RxFrame(pkt, mac, src, dest, id, sport, dport, payload, pad);
  }

  method RxFrame(pkt: Packet, ghost mac: nat, ghost src: nat, ghost dest: nat, ghost id: nat, ghost sport: nat,
                 ghost dport: nat, ghost payload: seq<Byte>, ghost pad: seq<Byte>) returns (f: Fields)
    requires mac < Limit(6) && src < Limit(4) && dest < Limit(4) && sport < Limit(2) && dport < Limit(2)
    requires 28 + |payload| < 0x1_0000
    requires pkt.raw[..] == Frame(mac, src, dest, id, sport, dport, payload) + pad
    modifies pkt`user, pkt`length
    ensures f == Fields(mac, EtherIp, src, dest, ProtoUdp, sport, dport, payload)
  {
    FrameTaken(mac, src, dest, id, sport, dport, payload, pad);
    f := RxUdp(pkt);
  }

  lemma FrameTaken(mac: nat, src: nat, dest: nat, id: nat, sport: nat, dport: nat, payload: seq<Byte>, pad: seq<Byte>)
    requires mac < Limit(6) && src < Limit(4) && dest < Limit(4) && sport < Limit(2) && dport < Limit(2)
    requires 28 + |payload| < 0x1_0000
    ensures var p := Frame(mac, src, dest, id, sport, dport, payload) + pad;
            && |p| >= 36 && IpLength(p) == 20
            && Taken(p, 28) == Fields(mac, EtherIp, src, dest, ProtoUdp, sport, dport, payload)
  {
    FrameParts(mac, src, dest, id, sport, dport, payload, pad);
    var p := Frame(mac, src, dest, id, sport, dport, payload) + pad;
    FrameFields(p, mac, src, dest, sport, dport, 8 + |payload|);
    TakenIs(p, payload);
  }

  lemma TakenIs(p: seq<Byte>, payload: seq<Byte>)
    requires |p| >= 36 + |payload| && p[8] == 0x45 && Field(p, 32, 34) == 8 + |payload| && p[36..36 + |payload|] == payload
    ensures IpLength(p) == 20
    ensures Taken(p, 28) ==
            Fields(Field(p, 0, 6), Field(p, 6, 8), Field(p, 20, 24), Field(p, 24, 28), p[17], Field(p, 28, 30), Field(p, 30, 32), payload)
  {
    OptionsSkipped(p, 5);
    PayloadIs(p, 28, 8 + |payload|);
  }

  lemma FrameFields(p: seq<Byte>, mac: nat, src: nat, dest: nat, sport: nat, dport: nat, len: nat)
    requires mac < Limit(6) && src < Limit(4) && dest < Limit(4) && sport < Limit(2) && dport < Limit(2) && len < Limit(2)
    requires |p| >= 36 && p[0..6] == Big(mac, 6) && p[6..8] == Big(EtherIp, 2)
    requires p[20..24] == Big(src, 4) && p[24..28] == Big(dest, 4)
    requires p[28..30] == Big(sport, 2) && p[30..32] == Big(dport, 2) && p[32..34] == Big(len, 2)
    ensures Field(p, 0, 6) == mac && Field(p, 6, 8) == EtherIp && Field(p, 20, 24) == src && Field(p, 24, 28) == dest
    ensures Field(p, 28, 30) == sport && Field(p, 30, 32) == dport && Field(p, 32, 34) == len
  {
    assert EtherIp < Limit(2);
    FieldIs(p, 0, mac, 6);
    FieldIs(p, 6, EtherIp, 2);
    FieldIs(p, 20, src, 4);
    FieldIs(p, 24, dest, 4);
    FieldIs(p, 28, sport, 2);
    FieldIs(p, 30, dport, 2);
    FieldIs(p, 32, len, 2);
  }
}
