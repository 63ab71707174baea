/** Transmit and receive together: every datagram `udp_tx` builds passes all checks of the receiving path. */
module RoundTrip {
  import opened Bits
  import opened Checksum
  import opened PayloadChecksum
  import opened Datagram
  import opened DatagramTx

  /** What `udp_rx` makes of a packet whose lengths match, whatever follows it in the buffer. */
  lemma UdpRxAccepts(s: Sock, pkt: seq<byte>, rest: seq<byte>)
    requires Covers(pkt, |pkt|) && 20 <= HdrLen(pkt) && HdrLen(pkt) + 8 <= |pkt| && HdrLen(pkt) % 2 == 0
    requires pkt[HdrLen(pkt) + 6] == 0 && pkt[HdrLen(pkt) + 7] == 0 && (Version(pkt) == 4 || pkt[6] <= 128)
    requires Plen(pkt) == Be16(pkt, HdrLen(pkt) + 4) == |pkt| - HdrLen(pkt)
    ensures var ip := Sealed(s, pkt) + rest;
            && InBuffer(ip) && HdrLen(ip) == HdrLen(pkt) && UdpLen(ip) == |pkt| - HdrLen(pkt)
            && (Be16(ip, HdrLen(pkt) + 6) == 0 || PayloadValue(ip, |pkt|) == 0)
  {
    hide LeSum, Ones, PayloadSum, Cksum, Pseudo;
    var r, h := Sealed(s, pkt), HdrLen(pkt);
    var ip := r + rest;
    assert forall i :: 0 <= i < h + 6 ==> ip[i] == pkt[i];
    assert Plen(ip) == Plen(pkt) && Be16(ip, h + 4) == Be16(pkt, h + 4);
    if s.zeroCksum {
      assert Be16(ip, h + 6) == 0;
    } else {
      SealedVerifies(s, pkt);
      assert ip[..|pkt|] == r;
      ValueOfPrefix(ip, |pkt|);
    }
  }

  /** The fields `ip4_rx` and `udp_rx` look at, in a packet followed by anything. */
  lemma Fields4(s: Sock, v: Iov, w: Env, payload: seq<byte>, rest: seq<byte>)
    requires Sized(s, v, w, 4) && v.len == |payload| && v.len + 28 < 0x1_0000
    ensures var ip := Sealed(s, Packet4(s, v, w, payload)) + rest;
            && ip[..20] == Ip4Header(s, v, w)
            && ip[1] == Tos4(s, v) && ip[6] == 0x40 && ip[7] == 0 && ip[8] == 0xff && ip[9] == 17
            && ip[12..16] == Src(s, w) && ip[16..20] == Dst(s, v)
            && ip[20..22] == s.lport && ip[22..24] == Dport(s, v)
            && ip[28..28 + v.len] == payload
  {
    hide LeSum, Ones, PayloadValue, Cksum, Pseudo, Ip4Header;
    var pkt, h := Packet4(s, v, w, payload), Ip4Header(s, v, w);
    var ip := Sealed(s, pkt) + rest;
    HeaderFields(s, v, w);
    assert forall i :: 0 <= i < |pkt| && i != 26 && i != 27 ==> ip[i] == pkt[i];
    assert ip[..20] == h;
    assert ip[12..16] == h[12..16] && ip[16..20] == h[16..20];
  }

  /** The IP layer accepts the packet. */
  lemma Ip4Accepts(h: Host, s: Sock, v: Iov, w: Env, payload: seq<byte>, rest: seq<byte>)
    requires ValidHost(h) && Sized(s, v, w, 4) && v.len == |payload| && v.len + 28 < 0x1_0000
    requires MyIp4(h, Dst(s, v))
    ensures var ip := Sealed(s, Packet4(s, v, w, payload)) + rest;
            && InBuffer(ip)
            && Ip4Rx(h, ip) == Received(Src(s, w), s.lport, Dst(s, v), Dport(s, v), 28, v.len, Tos4(s, v), 0xff)
  {
    hide LeSum, Ones, PayloadSum, Cksum, Pseudo, Sealed, MyIp4, Packet4, Ip4Header, Covers;
    var pkt := Packet4(s, v, w, payload);
    PacketLengths4(s, v, w, payload);
    var ip := Sealed(s, pkt) + rest;
    UdpRxAccepts(s, pkt, rest);
    Fields4(s, v, w, payload, rest);
    HeaderVerifies(s, v, w);
    assert ip[0] == ip[..20][0];
  }

  lemma HeaderVerifies(s: Sock, v: Iov, w: Env)
    requires Sized(s, v, w, 4) && v.len + 28 < 0x1_0000
    ensures Cksum(Ip4Header(s, v, w)) == 0 && Ip4Header(s, v, w)[0] == 0x45
  {
    hide LeSum, Ones, Cksum;
    WrittenVerifies(Ip4Blank(s, v, w), 10);
  }

  /** The length fields of the packet agree with its length, and its UDP checksum field is zero. */
  lemma PacketLengths4(s: Sock, v: Iov, w: Env, payload: seq<byte>)
    requires Sized(s, v, w, 4) && v.len == |payload| && v.len + 28 < 0x1_0000
    ensures var pkt := Packet4(s, v, w, payload);
            && Covers(pkt, |pkt|) && HdrLen(pkt) == 20 && Version(pkt) == 4 && pkt[26] == 0 && pkt[27] == 0
            && Plen(pkt) == Be16(pkt, 24) == |pkt| - 20
  {
    hide LeSum, Ones, Cksum;
    var pkt := Packet4(s, v, w, payload);
    assert pkt[2] == Hi(v.len + 28) && pkt[3] == Lo(v.len + 28);
    assert pkt[24] == Hi(v.len + 8) && pkt[25] == Lo(v.len + 8);
  }

  /** IPv4 round trip: sender address and port, local address and port, payload place, length and bytes, and the TOS
      byte arrive as they were sent. */
  lemma RoundTrip4(h: Host, buf: seq<byte>, s: Sock, v: Iov, w: Env)
    requires ValidHost(h) && h.haveIp4
    requires Sized(s, v, w, 4) && v.len + 28 < 0x1_0000 && 42 + v.len <= |buf|
    requires MyMac(h, Dmac(s, w)) && MyIp4(h, Dst(s, v))
    ensures var f := Frame4(buf, s, v, w);
            && InBuffer(f[14..])
            && EthRx(h, f) == Received(Src(s, w), s.lport, Dst(s, v), Dport(s, v), 28, v.len, Tos4(s, v), 0xff)
            && f[14 + 28..14 + 28 + v.len] == buf[42..42 + v.len]
  {
    hide LeSum, Ones, PayloadSum, Cksum, Pseudo, Sealed, MyIp4, Packet4, InBuffer, Ip4Rx, UdpRx;
    var f := Frame4(buf, s, v, w);
    var payload, rest := buf[42..42 + v.len], buf[42 + v.len..];
    var ip := Sealed(s, Packet4(s, v, w, payload)) + rest;
    assert f == EthHeader(s, w, [0x08, 0x00]) + ip;
    assert f[14..] == ip && f[..6] == Dmac(s, w) && f[12..14] == [0x08, 0x00];
    Ip4Accepts(h, s, v, w, payload, rest);
    Fields4(s, v, w, payload, rest);
    assert f[14 + 28..14 + 28 + v.len] == ip[28..28 + v.len];
  }

  // ----- IPv6

  /** The TOS byte the receiver reads from an IPv6 packet, in terms of what was in the buffer before. */
  function Tos6(stale: seq<byte>, v: Iov): byte
    requires |stale| == 4
  {
    if v.flags % 4 != 0 then
      OrNibble(stale[1], v.flags);
      Nibbles(v.flags / 16, Or(stale[1] / 16, v.flags % 16))
    else stale[1] / 16
  }

  function Nibbles(hi: nat, lo: nat): byte
    requires hi < 16 && lo < 16
  {
    hi * 16 + lo
  }

  lemma OrNibble(a: byte, f: byte)
    ensures OrByte(a, f % 16 * 16) / 16 == Or(a / 16, f % 16) < 16
  {
    hide Or;
    var x: nat, b: nat := a, f % 16 * 16;
    OrShifts(x, b, 4);
    ShrFour(x);
    ShrFour(b);
    ShrFour(Or(x, b));
    assert Exp2(4) == 16;
    OrBound(x / 16, b / 16, 4);
  }

  lemma PacketLengths6(stale: seq<byte>, s: Sock, v: Iov, w: Env, payload: seq<byte>)
    requires |stale| == 4 && Sized(s, v, w, 16) && v.len == |payload| && v.len + 48 < 0x1_0000
    ensures var pkt := Packet6(stale, s, v, w, payload);
            && Covers(pkt, |pkt|) && HdrLen(pkt) == 40 && Version(pkt) == 6
            && pkt[46] == 0 && pkt[47] == 0 && pkt[6] == 17
            && Plen(pkt) == Be16(pkt, 44) == |pkt| - 40
  {
    hide LeSum, Ones, Cksum, Vtc6;
    var pkt := Packet6(stale, s, v, w, payload);
    assert pkt[4] == Hi(v.len + 8) && pkt[5] == Lo(v.len + 8);
    assert pkt[44] == Hi(v.len + 8) && pkt[45] == Lo(v.len + 8);
  }

  lemma Fields6(stale: seq<byte>, s: Sock, v: Iov, w: Env, payload: seq<byte>, rest: seq<byte>)
    requires |stale| == 4 && Sized(s, v, w, 16) && v.len == |payload| && v.len + 48 < 0x1_0000
    ensures var ip := Sealed(s, Packet6(stale, s, v, w, payload)) + rest;
            && ip[0] == Vtc6(stale, s, v)[0] && ip[1] == Vtc6(stale, s, v)[1] && ip[6] == 17 && ip[7] == 0xff
            && ip[8..24] == Src(s, w) && ip[24..40] == Dst(s, v)
            && ip[40..42] == s.lport && ip[42..44] == Dport(s, v)
            && ip[48..48 + v.len] == payload
  {
    hide LeSum, Ones, PayloadSum, Cksum, Pseudo, Vtc6;
    var pkt := Packet6(stale, s, v, w, payload);
    var ip := Sealed(s, pkt) + rest;
    assert forall i :: 0 <= i < |pkt| && i != 46 && i != 47 ==> ip[i] == pkt[i];
  }

  /** The IP layer accepts the packet. */
  lemma Ip6Accepts(h: Host, stale: seq<byte>, s: Sock, v: Iov, w: Env, payload: seq<byte>, rest: seq<byte>)
    requires ValidHost(h) && |stale| == 4 && Sized(s, v, w, 16) && v.len == |payload| && v.len + 48 < 0x1_0000
    requires MyIp6(h, Dst(s, v))
    ensures var ip := Sealed(s, Packet6(stale, s, v, w, payload)) + rest;
            && InBuffer(ip)
            && Ip6Rx(h, ip) == Received(Src(s, w), s.lport, Dst(s, v), Dport(s, v), 48, v.len, Tos6(stale, v), 0xff)
  {
    hide LeSum, Ones, PayloadValue, Cksum, Pseudo, Sealed, MyIp6, Packet6, Ip6Header, Covers, Or, Tos6;
    var pkt := Packet6(stale, s, v, w, payload);
    PacketLengths6(stale, s, v, w, payload);
    var ip := Sealed(s, pkt) + rest;
    UdpRxAccepts(s, pkt, rest);
    Fields6(stale, s, v, w, payload, rest);
    TosRead6(stale, s, v, w, payload, rest);
  }

  lemma TosRead6(stale: seq<byte>, s: Sock, v: Iov, w: Env, payload: seq<byte>, rest: seq<byte>)
    requires |stale| == 4 && Sized(s, v, w, 16) && v.len == |payload| && v.len + 48 < 0x1_0000
    ensures var ip := Sealed(s, Packet6(stale, s, v, w, payload)) + rest;
            HasHeader(ip) && Version(ip) == 6 && Tos(ip) == Tos6(stale, v)
  {
    hide LeSum, Ones, PayloadValue, Cksum, Pseudo, Sealed, Packet6, Ip6Header, Or;
    Fields6(stale, s, v, w, payload, rest);
    OrNibble(stale[1], v.flags);
  }

  /** IPv6 round trip: everything but the TOS byte arrives as it was sent; the TOS byte depends on stale buffer
      contents. */
  lemma RoundTrip6(h: Host, buf: seq<byte>, s: Sock, v: Iov, w: Env)
    requires ValidHost(h) && h.haveIp6
    requires Sized(s, v, w, 16) && v.len + 48 < 0x1_0000 && 62 + v.len <= |buf|
    requires MyMac(h, Dmac(s, w)) && MyIp6(h, Dst(s, v))
    ensures var f := Frame6(buf, s, v, w);
            && InBuffer(f[14..])
            && EthRx(h, f) ==
               Received(Src(s, w), s.lport, Dst(s, v), Dport(s, v), 48, v.len, Tos6(buf[14..18], v), 0xff)
            && f[14 + 48..14 + 48 + v.len] == buf[62..62 + v.len]
  {
    hide LeSum, Ones, PayloadSum, Cksum, Pseudo, Sealed, MyIp6, Packet6, InBuffer, Ip6Rx, UdpRx, Tos6;
    var f := Frame6(buf, s, v, w);
    var stale, payload, rest := buf[14..18], buf[62..62 + v.len], buf[62 + v.len..];
    var ip := Sealed(s, Packet6(stale, s, v, w, payload)) + rest;
    assert f == EthHeader(s, w, [0x86, 0xdd]) + ip;
    assert f[14..] == ip && f[..6] == Dmac(s, w) && f[12..14] == [0x86, 0xdd];
    Ip6Accepts(h, stale, s, v, w, payload, rest);
    Fields6(stale, s, v, w, payload, rest);
    assert f[14 + 48..14 + 48 + v.len] == ip[48..48 + v.len];
  }

  /** The TOS byte survives IPv6 exactly when the stale bits are covered by it: with an ECN marking, the stale
      nibble must add no bit; without one the TOS is never written, so the stale nibble must happen to be the whole
      TOS byte. */
  lemma Tos6Exact(h: Host, buf: seq<byte>, s: Sock, v: Iov, w: Env)
    requires ValidHost(h) && h.haveIp6
    requires Sized(s, v, w, 16) && v.len + 48 < 0x1_0000 && 62 + v.len <= |buf|
    requires MyMac(h, Dmac(s, w)) && MyIp6(h, Dst(s, v))
    ensures var f := Frame6(buf, s, v, w); var stale := buf[15] / 16;
            && InBuffer(f[14..]) && EthRx(h, f).Received?
            && (EthRx(h, f).tos == v.flags <==>
                if v.flags % 4 != 0 then Or(stale, v.flags % 16) == v.flags % 16 else stale == v.flags)
  {
    hide Or, EthRx, InBuffer, Frame6, MyIp6;
    RoundTrip6(h, buf, s, v, w);
    if v.flags % 4 != 0 {
      OrNibble(buf[15], v.flags);
    }
  }

  /** DSCP 46 without an ECN marking, sent from a buffer that held zeros: the receiver sees TOS 0. */
  lemma DscpLost6(h: Host, buf: seq<byte>, s: Sock, v: Iov, w: Env)
    requires ValidHost(h) && h.haveIp6
    requires Sized(s, v, w, 16) && v.len + 48 < 0x1_0000 && 62 + v.len <= |buf|
    requires MyMac(h, Dmac(s, w)) && MyIp6(h, Dst(s, v))
    requires v.flags == 0xb8 && buf[15] / 16 == 0
    ensures var f := Frame6(buf, s, v, w); InBuffer(f[14..]) && EthRx(h, f).Received? && EthRx(h, f).tos == 0
  {
    hide EthRx, InBuffer, Frame6, MyIp6;
    RoundTrip6(h, buf, s, v, w);
  }

  /** A computed UDP checksum of zero is sent as it is, which the receiver takes for "no checksum" (RFC 768 asks for
      all ones instead): this happens exactly when the covered words sum to a multiple of 65535. */
  lemma SentUnprotected(s: Sock, pkt: seq<byte>)
    requires Covers(pkt, |pkt|) && 20 <= HdrLen(pkt) && HdrLen(pkt) + 8 <= |pkt| && !s.zeroCksum
    requires if Version(pkt) == 4 then pkt[9] == 17 else pkt[6] == 17
    ensures Be16(Sealed(s, pkt), HdrLen(pkt) + 6) == 0 <==> LeSum(Covered(pkt, |pkt|)) % 65535 == 0
  {
    hide PayloadSum, Covered, LeSum, Ones, PayloadValue;
    PayloadCorrect(pkt, |pkt|);
    ProtocolCounts(pkt, |pkt|);
    OnesFull(LeSum(Covered(pkt, |pkt|)));
    ReadBack(pkt, HdrLen(pkt) + 6, PayloadValue(pkt, |pkt|));
  }

  lemma ReadBack(d: seq<byte>, i: nat, x: U16)
    requires i + 2 <= |d|
    ensures Be16(Store16(d, i, x), i) == 0 <==> x == 0
  {
  }

  /** Such datagrams exist on every flow: whatever the addresses and ports, some two-byte payload goes out
      unprotected. */
  lemma UnprotectedPayload(s: Sock, v: Iov, w: Env) returns (payload: seq<byte>)
    requires Sized(s, v, w, 4) && v.len == 2 && !s.zeroCksum
    ensures |payload| == 2 && Be16(Sealed(s, Packet4(s, v, w, payload)), 26) == 0
  {
    hide LeSum, PayloadSum, PayloadValue, Cksum, Ip4Header, UdpBlank, Sealed, Covered, CoveredHead;
    HeaderFields(s, v, w);
    var head := Ip4Header(s, v, w) + UdpBlank(s, v);
    payload := Complement(LeSum(CoveredHead(head)));
    CoveredSplit(head, payload);
    SumOfParts(CoveredHead(head), payload);
    assert Packet4(s, v, w, payload) == head + payload;
    SentUnprotected(s, head + payload);
  }

  /** A word that brings a sum up to a multiple of 65535. */
  lemma Complement(base: nat) returns (payload: seq<byte>)
    ensures |payload| == 2 && (base + LeSum(payload)) % 65535 == 0
  {
    var x: U16 := 65535 - base % 65535;
    payload := [Lo(x), Hi(x)];
    SumOfPair(Lo(x), Hi(x));
    assert Word(Lo(x), Hi(x)) == x;
    assert base + x == (base / 65535 + 1) * 65535;
  }

  lemma CoveredSplit(head: seq<byte>, payload: seq<byte>)
    requires |head| == 28 && head[0] == 0x45 && |payload| == 2
    ensures Covers(head + payload, 30) && Covered(head + payload, 30) == CoveredHead(head) + payload
  {
    var pkt := head + payload;
    assert pkt[20..30] == head[20..28] + payload;
    assert Pseudo(pkt) == Pseudo(head);
  }

  /** Pseudo-header and UDP header of an IPv4 packet. */
  function CoveredHead(head: seq<byte>): (d: seq<byte>)
    requires |head| == 28 && HasHeader(head) && Version(head) == 4
    ensures |d| == 20
  {
    Pseudo(head) + head[20..28]
  }

  lemma HeaderFields(s: Sock, v: Iov, w: Env)
    requires Sized(s, v, w, 4) && v.len + 28 < 0x1_0000
    ensures var h := Ip4Header(s, v, w);
            && |h| == 20 && h[0] == 0x45 && h[1] == Tos4(s, v)
            && h[6] == 0x40 && h[7] == 0 && h[8] == 0xff && h[9] == 17
            && h[12..16] == Src(s, w) && h[16..20] == Dst(s, v)
  {
    hide Cksum;
  }
}
