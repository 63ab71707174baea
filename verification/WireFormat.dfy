/** Sent frames byte by byte, against the layouts of RFC 791, RFC 8200 and RFC 768, and what the receiver makes of
    them. */
module WireFormat {
  import opened Bits
  import opened Checksum
  import opened PayloadChecksum
  import opened Datagram
  import opened DatagramTx
  import RoundTrip

  /** Where a datagram goes is decided by the remote port of the socket alone. */
  lemma Route(s: Sock, v: Iov, w: Env)
    ensures s.rport != [0, 0] ==>
              Src(s, w) == s.laddr && Dst(s, v) == s.raddr && Dport(s, v) == s.rport && Dmac(s, w) == s.dmac
    ensures s.rport == [0, 0] ==>
              Src(s, w) == w.ifaddr && Dst(s, v) == v.addr && Dport(s, v) == v.port && Dmac(s, w) == w.dmac
  {
  }

  /** The Ethernet header: destination, source, type. */
  lemma EthBytes(s: Sock, w: Env, etype: seq<byte>, rest: seq<byte>)
    requires |Dmac(s, w)| == 6 && |w.mac| == 6 && |etype| == 2
    ensures var f := EthHeader(s, w, etype) + rest;
            f[..6] == Dmac(s, w) && f[6..12] == w.mac && f[12..14] == etype && f[14..] == rest
  {
  }

  /** An IPv4 frame. */
  lemma Wire4(buf: seq<byte>, s: Sock, v: Iov, w: Env)
    requires Sized(s, v, w, 4) && v.len + 28 < 0x1_0000 && 42 + v.len <= |buf|
    ensures var f, connected := Frame4(buf, s, v, w), s.rport != [0, 0];
            && |f| == |buf|
            && f[..6] == (if connected then s.dmac else w.dmac) && f[6..12] == w.mac && f[12..14] == [0x08, 0x00]
            && f[14] == 0x45 && f[15] == (if v.flags % 4 == 0 && s.ecn then v.flags + 2 else v.flags)
            && f[16] == (v.len + 28) / 256 && f[17] == (v.len + 28) % 256
            && f[18] == w.id % 256 && f[19] == w.id / 256 && f[20] == 0x40 && f[21] == 0 && f[22] == 0xff && f[23] == 17
            && f[26..30] == (if connected then s.laddr else w.ifaddr)
            && f[30..34] == (if connected then s.raddr else v.addr)
            && f[34..36] == s.lport && f[36..38] == (if connected then s.rport else v.port)
            && f[38] == (v.len + 8) / 256 && f[39] == (v.len + 8) % 256
            && (s.zeroCksum ==> f[40] == 0 && f[41] == 0)
            && f[42..] == buf[42..]
  {
    hide LeSum, Ones, PayloadValue, Cksum, Pseudo, Sealed, Packet4, Src, Dst, Dport, Dmac;
    Route(s, v, w);
    var payload, rest := buf[42..42 + v.len], buf[42 + v.len..];
    var ip := Sealed(s, Packet4(s, v, w, payload)) + rest;
    var f := Frame4(buf, s, v, w);
    assert f == EthHeader(s, w, [0x08, 0x00]) + ip;
    EthBytes(s, w, [0x08, 0x00], ip);
    RoundTrip.Fields4(s, v, w, payload, rest);
    Lengths4(s, v, w, payload, rest);
    Shift(f, ip);
    assert buf[42..] == payload + rest;
    assert ip[28..] == ip[28..28 + v.len] + rest;
  }

  lemma Shift(f: seq<byte>, ip: seq<byte>)
    requires |f| >= 14 && f[14..] == ip
    ensures forall i, j :: 0 <= i <= j <= |ip| ==> f[14 + i..14 + j] == ip[i..j]
    ensures forall i :: 0 <= i < |ip| ==> f[14 + i] == ip[i]
  {
  }

  lemma Lengths4(s: Sock, v: Iov, w: Env, payload: seq<byte>, rest: seq<byte>)
    requires Sized(s, v, w, 4) && v.len == |payload| && v.len + 28 < 0x1_0000
    ensures var ip := Sealed(s, Packet4(s, v, w, payload)) + rest;
            && |Sealed(s, Packet4(s, v, w, payload))| == 28 + v.len
            && ip[0] == 0x45 && ip[2] == (v.len + 28) / 256 && ip[3] == (v.len + 28) % 256
            && ip[4] == w.id % 256 && ip[5] == w.id / 256
            && ip[24] == (v.len + 8) / 256 && ip[25] == (v.len + 8) % 256
            && (s.zeroCksum ==> ip[26] == 0 && ip[27] == 0)
  {
    hide LeSum, Ones, PayloadValue, Cksum, Pseudo, Tos4, Src, Dst, Dport;
  }

  /** An IPv6 frame. What the buffer held shows through in the first header word. */
  lemma Wire6(buf: seq<byte>, s: Sock, v: Iov, w: Env)
    requires Sized(s, v, w, 16) && v.len + 48 < 0x1_0000 && 62 + v.len <= |buf|
    ensures var f, connected := Frame6(buf, s, v, w), s.rport != [0, 0];
            && |f| == |buf|
            && f[..6] == (if connected then s.dmac else w.dmac) && f[6..12] == w.mac && f[12..14] == [0x86, 0xdd]
            && (v.flags % 4 != 0 ==>
                 f[14] == 0x60 + v.flags / 16 && f[15] == Or(buf[15], v.flags % 16 * 16) && f[16] == buf[16])
            && (v.flags % 4 == 0 ==>
                 f[14] == 0x60 && f[15] == buf[15] && f[16] == if s.ecn then Or(buf[16], 0x20) else buf[16])
            && f[17] == buf[17]
            && f[18] == (v.len + 8) / 256 && f[19] == (v.len + 8) % 256 && f[20] == 17 && f[21] == 0xff
            && f[22..38] == (if connected then s.laddr else w.ifaddr)
            && f[38..54] == (if connected then s.raddr else v.addr)
            && f[54..56] == s.lport && f[56..58] == (if connected then s.rport else v.port)
            && f[58] == (v.len + 8) / 256 && f[59] == (v.len + 8) % 256
            && (s.zeroCksum ==> f[60] == 0 && f[61] == 0)
            && f[62..] == buf[62..]
  {
    hide LeSum, Ones, PayloadValue, Cksum, Pseudo, Sealed, Packet6, Src, Dst, Dport, Dmac, Or;
    Route(s, v, w);
    var stale, payload, rest := buf[14..18], buf[62..62 + v.len], buf[62 + v.len..];
    var ip := Sealed(s, Packet6(stale, s, v, w, payload)) + rest;
    var f := Frame6(buf, s, v, w);
    assert f == EthHeader(s, w, [0x86, 0xdd]) + ip;
    EthBytes(s, w, [0x86, 0xdd], ip);
    RoundTrip.Fields6(stale, s, v, w, payload, rest);
    Lengths6(stale, s, v, w, payload, rest);
    FirstWord(stale, s, v);
    Shift(f, ip);
    assert buf[62..] == payload + rest;
    assert ip[48..] == ip[48..48 + v.len] + rest;
  }

  lemma FirstWord(stale: seq<byte>, s: Sock, v: Iov)
    requires |stale| == 4
    ensures var b := Vtc6(stale, s, v);
            && (v.flags % 4 != 0 ==>
                 b[0] == 0x60 + v.flags / 16 && b[1] == Or(stale[1], v.flags % 16 * 16) && b[2] == stale[2])
            && (v.flags % 4 == 0 ==>
                 b[0] == 0x60 && b[1] == stale[1] && b[2] == if s.ecn then Or(stale[2], 0x20) else stale[2])
            && b[3] == stale[3]
  {
    hide Or;
  }

  lemma Lengths6(stale: seq<byte>, s: Sock, v: Iov, w: Env, payload: seq<byte>, rest: seq<byte>)
    requires |stale| == 4 && Sized(s, v, w, 16) && v.len == |payload| && v.len + 48 < 0x1_0000
    ensures var ip := Sealed(s, Packet6(stale, s, v, w, payload)) + rest;
            && |Sealed(s, Packet6(stale, s, v, w, payload))| == 48 + v.len
            && ip[..4] == Vtc6(stale, s, v) && ip[4] == (v.len + 8) / 256 && ip[5] == (v.len + 8) % 256
            && ip[44] == (v.len + 8) / 256 && ip[45] == (v.len + 8) % 256
            && (s.zeroCksum ==> ip[46] == 0 && ip[47] == 0)
  {
    hide LeSum, Ones, PayloadValue, Cksum, Pseudo, Vtc6, Src, Dst, Dport;
    var ip := Sealed(s, Packet6(stale, s, v, w, payload)) + rest;
    assert forall i :: 0 <= i < 4 ==> ip[i] == Vtc6(stale, s, v)[i];
  }

  // ----- where datagrams go

  /** An IPv4 datagram of a connected socket goes to its peer, one of an unconnected socket to the address and port
      in the w_iov; the sender is the socket's own address, or the interface's. */
  lemma SentTo4(h: Host, buf: seq<byte>, s: Sock, v: Iov, w: Env)
    requires ValidHost(h) && h.haveIp4
    requires Sized(s, v, w, 4) && v.len + 28 < 0x1_0000 && 42 + v.len <= |buf|
    requires MyMac(h, Dmac(s, w)) && MyIp4(h, Dst(s, v))
    ensures var f := Frame4(buf, s, v, w);
            && InBuffer(f[14..]) && EthRx(h, f).Received?
            && var rx := EthRx(h, f);
            && rx.sport == s.lport && rx.len == v.len
            && (s.rport != [0, 0] ==>
                 rx.src == s.laddr && rx.dst == s.raddr && rx.dport == s.rport && f[..6] == s.dmac)
            && (s.rport == [0, 0] ==>
                 rx.src == w.ifaddr && rx.dst == v.addr && rx.dport == v.port && f[..6] == w.dmac)
  {
    hide EthRx, InBuffer, Frame4, MyIp4, Src, Dst, Dport, Dmac;
    RoundTrip.RoundTrip4(h, buf, s, v, w);
    Wire4(buf, s, v, w);
    Route(s, v, w);
  }

  /** The same for IPv6. */
  lemma SentTo6(h: Host, buf: seq<byte>, s: Sock, v: Iov, w: Env)
    requires ValidHost(h) && h.haveIp6
    requires Sized(s, v, w, 16) && v.len + 48 < 0x1_0000 && 62 + v.len <= |buf|
    requires MyMac(h, Dmac(s, w)) && MyIp6(h, Dst(s, v))
    ensures var f := Frame6(buf, s, v, w);
            && InBuffer(f[14..]) && EthRx(h, f).Received?
            && var rx := EthRx(h, f);
            && rx.sport == s.lport && rx.len == v.len
            && (s.rport != [0, 0] ==>
                 rx.src == s.laddr && rx.dst == s.raddr && rx.dport == s.rport && f[..6] == s.dmac)
            && (s.rport == [0, 0] ==>
                 rx.src == w.ifaddr && rx.dst == v.addr && rx.dport == v.port && f[..6] == w.dmac)
  {
    hide EthRx, InBuffer, Frame6, MyIp6, Src, Dst, Dport, Dmac;
    RoundTrip.RoundTrip6(h, buf, s, v, w);
    Wire6(buf, s, v, w);
    Route(s, v, w);
  }

  // ----- who takes a frame

  /** A host takes packets to each of its IPv4 addresses, to their broadcast addresses and to the general one, and to no
      others. */
  lemma MyIp4Iff(h: Host, ip: seq<byte>)
    requires ValidHost(h)
    ensures MyIp4(h, ip) <==>
              || (exists i :: h.addr4Pos <= i < |h.addrs| &&
                    (ip == h.addrs[i].addr[..4] || ip == h.addrs[i].bcast[..4]))
              || (h.addr4Pos < |h.addrs| && ip == [255, 255, 255, 255])
  {
    if h.addr4Pos < |h.addrs| && ip == [255, 255, 255, 255] {
      assert Matches4(h.addrs[h.addr4Pos], ip, true);
    }
    if i :| h.addr4Pos <= i < |h.addrs| && (ip == h.addrs[i].addr[..4] || ip == h.addrs[i].bcast[..4]) {
      assert Matches4(h.addrs[i], ip, true);
    }
  }

  /** To each of its IPv6 addresses, their solicited-node and their broadcast addresses, and to no others. */
  lemma MyIp6Iff(h: Host, ip: seq<byte>)
    requires ValidHost(h)
    ensures MyIp6(h, ip) <==>
              exists i :: 0 <= i < |h.addrs| &&
                (ip == h.addrs[i].addr || ip == h.addrs[i].snma || ip == h.addrs[i].bcast)
  {
    if i :| 0 <= i < |h.addrs| && (ip == h.addrs[i].addr || ip == h.addrs[i].snma || ip == h.addrs[i].bcast) {
      assert Matches6(h.addrs[i], ip, true);
    }
  }

  /** A frame to the unicast address of another host is dropped; one to the own address is not dropped for that. */
  lemma ForeignDropped(h: Host, frame: seq<byte>)
    requires ValidHost(h) && |frame| >= 14 && InBuffer(frame[14..])
    ensures frame[..6] != h.mac && frame[0] % 2 == 0 ==> EthRx(h, frame) == Dropped
    ensures frame[..6] == h.mac || frame[..6] == [255, 255, 255, 255, 255, 255] ==> MyMac(h, frame[..6])
  {
    assert frame[..6][0] == frame[0] && frame[..6][..2][0] == frame[0];
  }

  // ----- received frames

  /** What is received is a whole, unfragmented UDP datagram to this host, over IPv4 or IPv6, and what is reported
      of it is read from its own bytes. */
  lemma ReceivedBytes(h: Host, f: seq<byte>)
    requires ValidHost(h) && |f| >= 14 && InBuffer(f[14..]) && EthRx(h, f).Received?
    ensures var rx := EthRx(h, f);
            && |f| >= 34 && (f[14] / 16 == 4 || (f[14] / 16 == 6 && |f| >= 54))
            && (f[..6] == h.mac || f[..6] == [255, 255, 255, 255, 255, 255] || (f[0] == 0x33 && f[1] == 0x33))
            && (f[14] / 16 == 4 ==>
                 && h.haveIp4 && f[12] == 0x08 && f[13] == 0x00 && f[20] % 32 == 0 && f[21] == 0 && f[23] == 17
                 && MyIp4(h, f[30..34]) && rx.src == f[26..30] && rx.dst == f[30..34]
                 && rx.tos == f[15] && rx.ttl == f[22] && rx.off == f[14] % 16 * 4 + 8)
            && (f[14] / 16 == 6 ==>
                 && h.haveIp6 && f[12] == 0x86 && f[13] == 0xdd && f[20] == 17
                 && MyIp6(h, f[38..54]) && rx.src == f[22..38] && rx.dst == f[38..54]
                 && rx.tos / 16 == f[14] % 16 && rx.tos % 16 == f[15] / 16 && rx.ttl == f[21] && rx.off == 48)
            && 14 + rx.off <= |f|
            && rx.sport == f[6 + rx.off..8 + rx.off] && rx.dport == f[8 + rx.off..10 + rx.off]
            && var u, p := Be16(f, 10 + rx.off),
                           if f[14] / 16 == 4 then (Be16(f, 16) - f[14] % 16 * 4) % 0x1_0000 else Be16(f, 18);
            && 8 <= p && (8 <= u ==> rx.len + 8 == if u < p then u else p)
  {
    hide LeSum, Ones, PayloadValue, Cksum, Pseudo, MyIp4, MyIp6;
    var ip := f[14..];
    Shift(f, ip);
    assert f[..6][..2] == f[..2] && f[12..14] == [f[12], f[13]] && f[..2] == [f[0], f[1]];
  }
}
