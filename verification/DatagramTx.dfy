/** `udp_tx` with `mk_ip4_hdr`, `mk_ip6_hdr` and `mk_eth_hdr`, writing into the packet buffer in place. */
module DatagramTx {
  import opened Bits
  import opened Checksum
  import opened PayloadChecksum
  import opened Datagram

  /** The socket, as far as transmission reads it. Addresses and ports are raw bytes in network order. */
  datatype Sock = Sock(laddr: seq<byte>, lport: seq<byte>, raddr: seq<byte>, rport: seq<byte>,
                       ecn: bool, zeroCksum: bool, dmac: seq<byte>)

  /** The w_iov, as far as transmission reads it: destination for an unconnected socket, DSCP and ECN, payload
      length. */
  datatype Iov = Iov(addr: seq<byte>, port: seq<byte>, flags: byte, len: nat)

  /** The engine's own source address for unconnected sockets, its MAC, the resolved MAC of the destination, and the
      random IPv4 identification. */
  datatype Env = Env(ifaddr: seq<byte>, mac: seq<byte>, dmac: seq<byte>, id: U16)

  predicate Connected(s: Sock) {
    s.rport != [0, 0]
  }

  function Src(s: Sock, w: Env): seq<byte> {
    if Connected(s) then s.laddr else w.ifaddr
  }

  function Dst(s: Sock, v: Iov): seq<byte> {
    if Connected(s) then s.raddr else v.addr
  }

  function Dport(s: Sock, v: Iov): seq<byte> {
    if Connected(s) then s.rport else v.port
  }

  function Dmac(s: Sock, w: Env): seq<byte> {
    if Connected(s) then s.dmac else w.dmac
  }

  /** All parts have the lengths of their fields, for addresses of n bytes. */
  predicate Sized(s: Sock, v: Iov, w: Env, n: nat) {
    && |Src(s, w)| == n && |Dst(s, v)| == n
    && |s.lport| == 2 && |Dport(s, v)| == 2
    && |Dmac(s, w)| == 6 && |w.mac| == 6
  }

  // ----- stores

  /** s with the bytes from off on replaced by b. */
  function Splice(s: seq<byte>, off: nat, b: seq<byte>): (r: seq<byte>)
    requires off + |b| <= |s|
    ensures |r| == |s|
  {
    s[..off] + b + s[off + |b|..]
  }

  /** Overwriting the middle of a block that is cut into five pieces. */
  lemma SpliceMiddle(s: seq<byte>, a: nat, b: nat, mid: seq<byte>, c: nat)
    requires a <= b && b + |mid| <= c <= |s|
    ensures Splice(s, b, mid) == s[..a] + (s[a..b] + mid + s[b + |mid|..c]) + s[c..]
  {
    assert s[..b] == s[..a] + s[a..b];
    assert s[b + |mid|..] == s[b + |mid|..c] + s[c..];
  }

  /** What was written can be read back, and the bytes after it are untouched. */
  lemma SpliceRead(s: seq<byte>, off: nat, b: seq<byte>, i: nat, j: nat)
    requires off + |b| <= i <= j <= |s|
    ensures Splice(s, off, b)[off..off + |b|] == b && Splice(s, off, b)[i..j] == s[i..j]
    ensures Splice(s, off, b)[..off] == s[..off]
  {
    var r := Splice(s, off, b);
    forall k | i <= k < j
      ensures r[k] == s[k]
    {
      assert r[k] == s[off + |b|..][k - off - |b|];
    }
  }

  lemma SpliceFront(a: seq<byte>, b: seq<byte>, rest: seq<byte>)
    requires |a| == |b|
    ensures Splice(a + rest, 0, b) == b + rest
  {
  }

  /** Overwriting a word inside the middle piece. */
  lemma SpliceWord(a: seq<byte>, pkt: seq<byte>, c: seq<byte>, k: nat, x: U16)
    requires k + 2 <= |pkt|
    ensures Splice(a + pkt + c, |a| + k, [Lo(x), Hi(x)]) == a + Store16(pkt, k, x) + c
  {
  }

  lemma MiddlePiece(a: seq<byte>, b: seq<byte>, c: seq<byte>)
    ensures (a + b + c)[|a|..] == b + c && (b + c)[..|b|] == b
  {
    assert a + b + c == a + (b + c);
  }

  method StoreBytes(buf: array<byte>, off: nat, b: seq<byte>)
    requires off + |b| <= buf.Length
    modifies buf
    ensures buf[..] == Splice(old(buf[..]), off, b)
  {
    for i := 0 to |b|
      invariant forall k :: 0 <= k < buf.Length ==>
                              buf[k] == if off <= k < off + i then b[k - off] else old(buf[k])
    {
      buf[off + i] := b[i];
    }
  }

  // ----- the IPv4 packet

  /** The TOS byte: the w_iov's own, or with ECT(0) added when it has no ECN marking and the socket asks for it. */
  function Tos4(s: Sock, v: Iov): byte {
    if v.flags % 4 == 0 && s.ecn then v.flags + 2 else v.flags
  }

  /** The IPv4 header with a zero checksum field. */
  function Ip4Blank(s: Sock, v: Iov, w: Env): (h: seq<byte>)
    requires Sized(s, v, w, 4) && v.len + 28 < 0x1_0000
    ensures |h| == 20
  {
    var n: U16 := v.len + 28;
    [0x45, Tos4(s, v), Hi(n), Lo(n), Lo(w.id), Hi(w.id), 0x40, 0, 0xff, 17, 0, 0] + Src(s, w) + Dst(s, v)
  }

  function Ip4Header(s: Sock, v: Iov, w: Env): (h: seq<byte>)
    requires Sized(s, v, w, 4) && v.len + 28 < 0x1_0000
    ensures |h| == 20
  {
    Store16(Ip4Blank(s, v, w), 10, Cksum(Ip4Blank(s, v, w)))
  }

  /** The UDP header with a zero checksum field. */
  function UdpBlank(s: Sock, v: Iov): (h: seq<byte>)
    requires |s.lport| == 2 && |Dport(s, v)| == 2 && v.len + 8 < 0x1_0000
    ensures |h| == 8
  {
    s.lport + Dport(s, v) + BeBytes(v.len + 8) + [0, 0]
  }

  /** An IP packet whose UDP checksum field is zero gets its checksum, unless the socket disables it. */
  function Sealed(s: Sock, pkt: seq<byte>): (r: seq<byte>)
    requires Covers(pkt, |pkt|) && HdrLen(pkt) + 8 <= |pkt|
    ensures |r| == |pkt|
  {
    if s.zeroCksum then pkt else Store16(pkt, HdrLen(pkt) + 6, PayloadValue(pkt, |pkt|))
  }

  /** The first n bytes of the IPv4 packet before the UDP checksum is in. */
  function Packet4(s: Sock, v: Iov, w: Env, payload: seq<byte>): (p: seq<byte>)
    requires Sized(s, v, w, 4) && v.len == |payload| && v.len + 28 < 0x1_0000
    ensures |p| == 28 + v.len && Version(p) == 4 && HdrLen(p) == 20
  {
    Ip4Header(s, v, w) + UdpBlank(s, v) + payload
  }

  function EthHeader(s: Sock, w: Env, etype: seq<byte>): seq<byte> {
    Dmac(s, w) + w.mac + etype
  }

  /** What the buffer holds after `udp_tx` on an IPv4 socket: frame first, the rest as before. */
  function Frame4(buf: seq<byte>, s: Sock, v: Iov, w: Env): (r: seq<byte>)
    requires Sized(s, v, w, 4) && v.len + 28 < 0x1_0000 && 42 + v.len <= |buf|
    ensures |r| == |buf|
  {
    EthHeader(s, w, [0x08, 0x00]) + Sealed(s, Packet4(s, v, w, buf[42..42 + v.len])) + buf[42 + v.len..]
  }

  /** `mk_ip4_hdr`: fill in the header, then checksum it with a zero checksum field. */
  method MkIp4Hdr(buf: array<byte>, s: Sock, v: Iov, w: Env)
    requires Sized(s, v, w, 4) && v.len + 28 < 0x1_0000 && 34 <= buf.Length
    modifies buf
    ensures buf[..] == Splice(old(buf[..]), 14, Ip4Header(s, v, w))
  {
    hide Cksum, Store16, Lo, Hi, Tos4;
    ghost var b0 := buf[..];
    var n: U16 := v.len + 28;
    StoreBytes(buf, 14,
               [0x45, Tos4(s, v), Hi(n), Lo(n), Lo(w.id), Hi(w.id), 0x40, 0, 0xff, 17, 0, 0] + Src(s, w) + Dst(s, v));
    ghost var blank := Ip4Blank(s, v, w);
    assert buf[14..34] == blank;
    var ck := IpCksum(buf[14..34]);
    SpliceWord(b0[..14], blank, b0[34..], 10, ck);
    StoreBytes(buf, 24, [Lo(ck), Hi(ck)]);
  }

  /** The checksum of a packet does not depend on what follows it in the buffer. */
  lemma ValueOfPrefix(ip: seq<byte>, len: nat)
    requires Covers(ip, len) && HdrLen(ip) >= 20
    ensures Covers(ip[..len], len) && PayloadValue(ip, len) == PayloadValue(ip[..len], len)
  {
    hide LeSum, Ones;
    var p := ip[..len];
    assert p[HdrLen(p)..len] == ip[HdrLen(ip)..len];
    if Version(ip) == 4 {
      assert p[12..16] == ip[12..16] && p[16..20] == ip[16..20];
    } else {
      assert p[8..24] == ip[8..24] && p[24..40] == ip[24..40] && p[4..6] == ip[4..6];
    }
  }

  lemma ValueBefore(pkt: seq<byte>, rest: seq<byte>)
    requires Covers(pkt, |pkt|) && HdrLen(pkt) >= 20
    ensures Covers(pkt + rest, |pkt|) && PayloadValue(pkt + rest, |pkt|) == PayloadValue(pkt, |pkt|)
  {
    hide PayloadValue;
    assert (pkt + rest)[..|pkt|] == pkt;
    ValueOfPrefix(pkt + rest, |pkt|);
  }

  /** The checksum of a finished packet goes into its field, unless the socket disables it. */
  method SealChecksum(buf: array<byte>, s: Sock, h: nat, n: nat,
                      ghost a: seq<byte>, ghost pkt: seq<byte>, ghost c: seq<byte>)
    requires buf[..] == a + pkt + c && |a| == 14 && |pkt| == n
    requires Covers(pkt, n) && 20 <= HdrLen(pkt) == h && h + 8 <= n
    modifies buf
    ensures buf[..] == a + Sealed(s, pkt) + c
  {
    hide LeSum, Ones, PayloadSum, PayloadValue, Splice, Store16;
    if !s.zeroCksum {
      MiddlePiece(a, pkt, c);
      assert buf[14..] == buf[..][14..];
      ValueBefore(pkt, c);
      var ck := PayloadCksum(buf[14..], n);
      StoreBytes(buf, 14 + h + 6, [Lo(ck), Hi(ck)]);
      SpliceWord(a, pkt, c, h + 6, ck);
    }
  }

  /** The UDP half of `udp_tx`, once the IP header is in place: header with a zero checksum, then the checksum. */
  method SealUdp(buf: array<byte>, s: Sock, v: Iov, h: nat)
    requires |s.lport| == 2 && |Dport(s, v)| == 2 && v.len + 8 + h < 0x1_0000 && 14 + h + 8 + v.len <= buf.Length
    requires 20 <= h && HasHeader(buf[14..]) && HdrLen(buf[14..]) == h
    modifies buf
    ensures var pkt := old(buf[14..14 + h]) + UdpBlank(s, v) + old(buf[22 + h..22 + h + v.len]);
            && Covers(pkt, |pkt|) && HdrLen(pkt) == h
            && buf[..] == old(buf[..14]) + Sealed(s, pkt) + old(buf[22 + h + v.len..])
  {
    hide PayloadValue, Splice, Sealed;
    ghost var b0 := buf[..];
    ghost var pkt := b0[14..14 + h] + UdpBlank(s, v) + b0[22 + h..22 + h + v.len];
    assert pkt[0] == b0[14] == buf[14..][0];
    StoreBytes(buf, 14 + h, s.lport + Dport(s, v) + BeBytes(v.len + 8) + [0, 0]);
    SpliceMiddle(b0, 14, 14 + h, UdpBlank(s, v), 22 + h + v.len);
    SealChecksum(buf, s, h, h + 8 + v.len, b0[..14], pkt, b0[22 + h + v.len..]);
  }

  /** What `udp_tx` does once the IP header hdr is in the buffer: UDP header and checksum, Ethernet header. */
  method FinishTx(buf: array<byte>, s: Sock, v: Iov, w: Env, etype: seq<byte>, h: nat,
                  ghost b0: seq<byte>, ghost hdr: seq<byte>)
    requires |s.lport| == 2 && |Dport(s, v)| == 2 && |Dmac(s, w)| == 6 && |w.mac| == 6 && |etype| == 2
    requires |hdr| == h && 20 <= h && v.len + 8 + h < 0x1_0000 && 22 + h + v.len <= |b0|
    requires HasHeader(hdr) && HdrLen(hdr) == h
    requires buf[..] == Splice(b0, 14, hdr)
    modifies buf
    ensures var pkt := hdr + UdpBlank(s, v) + b0[22 + h..22 + h + v.len];
            && Covers(pkt, |pkt|) && HdrLen(pkt) == h
            && buf[..] == EthHeader(s, w, etype) + Sealed(s, pkt) + b0[22 + h + v.len..]
  {
    hide LeSum, Ones, PayloadSum, Cksum, Sealed, Splice;
    SpliceRead(b0, 14, hdr, 22 + h, 22 + h + v.len);
    SpliceRead(b0, 14, hdr, 22 + h + v.len, |b0|);
    ghost var b1 := buf[..];
    assert b1[14..14 + h] == hdr && b1[22 + h..22 + h + v.len] == b0[22 + h..22 + h + v.len];
    ghost var rest := b0[22 + h + v.len..];
    assert b1[22 + h + v.len..] == b1[22 + h + v.len..|b0|] == b0[22 + h + v.len..|b0|] == rest;
    ghost var pkt := hdr + UdpBlank(s, v) + b0[22 + h..22 + h + v.len];
    SealUdp(buf, s, v, h);
    assert buf[..] == b1[..14] + (Sealed(s, pkt) + rest);
    SpliceFront(b1[..14], EthHeader(s, w, etype), Sealed(s, pkt) + rest);
    StoreBytes(buf, 0, Dmac(s, w) + w.mac + etype);
  }

  /** `udp_tx` on an IPv4 socket. */
  method UdpTx4(buf: array<byte>, s: Sock, v: Iov, w: Env)
    requires Sized(s, v, w, 4) && v.len + 28 < 0x1_0000 && 42 + v.len <= buf.Length
    modifies buf
    ensures buf[..] == Frame4(old(buf[..]), s, v, w)
  {
    hide LeSum, Ones, PayloadSum, Cksum, Sealed;
    ghost var b0 := buf[..];
    MkIp4Hdr(buf, s, v, w);
    FinishTx(buf, s, v, w, [0x08, 0x00], 20, b0, Ip4Header(s, v, w));
  }

  /** The checksum `udp_tx` wrote verifies at the receiver. */
  lemma SealedVerifies(s: Sock, pkt: seq<byte>)
    requires Covers(pkt, |pkt|) && 20 <= HdrLen(pkt) && HdrLen(pkt) + 8 <= |pkt|
    requires HdrLen(pkt) % 2 == 0 && pkt[HdrLen(pkt) + 6] == 0 && pkt[HdrLen(pkt) + 7] == 0
    requires !s.zeroCksum && (Version(pkt) == 4 || pkt[6] <= 128)
    ensures var r := Sealed(s, pkt); Covers(r, |r|) && PayloadValue(r, |r|) == 0
  {
    hide LeSum, Ones, PayloadSum, Cksum, PayloadValue, Covered;
    var n, c := |pkt|, PayloadValue(pkt, |pkt|);
    PayloadCorrect(pkt, n);
    StoredCovered(pkt, c);
    WrittenVerifies(Covered(pkt, n), |Pseudo(pkt)| + 6);
    PayloadCorrect(Sealed(s, pkt), n);
  }

  /** A word stored in the UDP checksum field is stored in the covered block. */
  lemma StoredCovered(pkt: seq<byte>, c: U16)
    requires Covers(pkt, |pkt|) && 20 <= HdrLen(pkt) && HdrLen(pkt) + 8 <= |pkt|
    ensures var r, k := Store16(pkt, HdrLen(pkt) + 6, c), |Pseudo(pkt)| + 6;
      && Covers(r, |r|) && |Covered(pkt, |pkt|)| == |pkt| - HdrLen(pkt) + |Pseudo(pkt)|
      && Covered(r, |r|) == Store16(Covered(pkt, |pkt|), k, c)
      && Covered(pkt, |pkt|)[k] == pkt[HdrLen(pkt) + 6] && Covered(pkt, |pkt|)[k + 1] == pkt[HdrLen(pkt) + 7]
  {
    var h, r := HdrLen(pkt), Store16(pkt, HdrLen(pkt) + 6, c);
    assert r[h..] == Store16(pkt[h..], 6, c);
    assert Pseudo(r) == Pseudo(pkt);
  }

  // ----- the IPv6 packet

  function OrByte(a: byte, b: byte): byte {
    OrBound(a, b, 8);
    assert Exp2(8) == 256;
    Or(a, b)
  }

  /** The first four header bytes. The code stores the version into the first one and then ORs the w_iov's DSCP and
      ECN, or the default ECT(0), into a word whose other three bytes still hold what the buffer had there
      (`stale`). */
  function Vtc6(stale: seq<byte>, s: Sock, v: Iov): (r: seq<byte>)
    requires |stale| == 4
    ensures |r| == 4
  {
    if v.flags % 4 != 0 then [0x60 + v.flags / 16, OrByte(stale[1], v.flags % 16 * 16), stale[2], stale[3]]
    else if s.ecn then [0x60, stale[1], OrByte(stale[2], 0x20), stale[3]]
    else [0x60, stale[1], stale[2], stale[3]]
  }

  function Ip6Header(stale: seq<byte>, s: Sock, v: Iov, w: Env): (h: seq<byte>)
    requires |stale| == 4 && Sized(s, v, w, 16) && v.len + 48 < 0x1_0000
    ensures |h| == 40
  {
    var n: U16 := v.len + 8;
    Vtc6(stale, s, v) + [Hi(n), Lo(n), 17, 0xff] + Src(s, w) + Dst(s, v)
  }

  function Packet6(stale: seq<byte>, s: Sock, v: Iov, w: Env, payload: seq<byte>): (p: seq<byte>)
    requires |stale| == 4 && Sized(s, v, w, 16) && v.len == |payload| && v.len + 48 < 0x1_0000
    ensures |p| == 48 + v.len && Version(p) == 6 && HdrLen(p) == 40
  {
    Ip6Header(stale, s, v, w) + UdpBlank(s, v) + payload
  }

  /** What the buffer holds after `udp_tx` on an IPv6 socket. */
  function Frame6(buf: seq<byte>, s: Sock, v: Iov, w: Env): (r: seq<byte>)
    requires Sized(s, v, w, 16) && v.len + 48 < 0x1_0000 && 62 + v.len <= |buf|
    ensures |r| == |buf|
  {
    EthHeader(s, w, [0x86, 0xdd]) + Sealed(s, Packet6(buf[14..18], s, v, w, buf[62..62 + v.len])) + buf[62 + v.len..]
  }

  /** The first word of the IPv6 header, written over what the buffer held. */
  method MkVtc6(buf: array<byte>, s: Sock, v: Iov)
    requires 18 <= buf.Length
    modifies buf
    ensures buf[..] == Splice(old(buf[..]), 14, Vtc6(old(buf[14..18]), s, v))
  {
    hide OrByte;
    ghost var b0 := buf[..];
    buf[14] := 0x60;
    if v.flags % 4 != 0 {
      buf[14] := buf[14] + v.flags / 16;
      buf[15] := OrByte(buf[15], v.flags % 16 * 16);
    } else if s.ecn {
      buf[16] := OrByte(buf[16], 0x20);
    }
    assert buf[14..18] == Vtc6(b0[14..18], s, v);
    assert buf[..14] == b0[..14] && buf[18..] == b0[18..];
    assert buf[..] == buf[..14] + buf[14..18] + buf[18..];
  }

  lemma SpliceNext(s: seq<byte>, off: nat, a: seq<byte>, b: seq<byte>)
    requires off + |a| + |b| <= |s|
    ensures Splice(Splice(s, off, a), off + |a|, b) == Splice(s, off, a + b)
  {
  }

  /** `mk_ip6_hdr`. */
  method MkIp6Hdr(buf: array<byte>, s: Sock, v: Iov, w: Env)
    requires Sized(s, v, w, 16) && v.len + 48 < 0x1_0000 && 54 <= buf.Length
    modifies buf
    ensures buf[..] == Splice(old(buf[..]), 14, Ip6Header(old(buf[14..18]), s, v, w))
  {
    hide Vtc6, Splice;
    ghost var b0 := buf[..];
    MkVtc6(buf, s, v);
    var n: U16 := v.len + 8;
    var rest := [Hi(n), Lo(n), 17, 0xff] + Src(s, w) + Dst(s, v);
    StoreBytes(buf, 18, rest);
    SpliceNext(b0, 14, Vtc6(b0[14..18], s, v), rest);
    assert Vtc6(b0[14..18], s, v) + rest == Ip6Header(b0[14..18], s, v, w);
  }

  /** `udp_tx` on an IPv6 socket. */
  method UdpTx6(buf: array<byte>, s: Sock, v: Iov, w: Env)
    requires Sized(s, v, w, 16) && v.len + 48 < 0x1_0000 && 62 + v.len <= buf.Length
    modifies buf
    ensures buf[..] == Frame6(old(buf[..]), s, v, w)
  {
    hide LeSum, Ones, PayloadSum, Cksum, Sealed;
    ghost var b0 := buf[..];
    MkIp6Hdr(buf, s, v, w);
    FinishTx(buf, s, v, w, [0x86, 0xdd], 40, b0, Ip6Header(b0[14..18], s, v, w));
  }
}
