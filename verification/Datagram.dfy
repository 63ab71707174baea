/** Datagrams on the wire: what `udp_tx` writes into a buffer and what `eth_rx`, `ip4_rx`, `ip6_rx` and `udp_rx`
    read. */
module Datagram {
  import opened Checksum
  import opened PayloadChecksum

  // ----- receiving

  /** An interface address with its broadcast and solicited-node addresses, as raw bytes; IPv4 uses the first four. */
  datatype IfAddr = IfAddr(addr: seq<byte>, bcast: seq<byte>, snma: seq<byte>)

  datatype Host = Host(mac: seq<byte>, addrs: seq<IfAddr>, addr4Pos: nat, haveIp4: bool, haveIp6: bool)

  ghost predicate ValidHost(h: Host) {
    && |h.mac| == 6
    && forall i :: 0 <= i < |h.addrs| ==> |h.addrs[i].addr| == |h.addrs[i].bcast| == |h.addrs[i].snma| == 16
  }

  /** Whether interface address i answers to this IPv4 address. */
  predicate Matches4(a: IfAddr, ip: seq<byte>, bcast: bool)
    requires |a.addr| == |a.bcast| == 16
  {
    ip == a.addr[..4] || (bcast && (ip == a.bcast[..4] || ip == [255, 255, 255, 255]))
  }

  predicate Matches6(a: IfAddr, ip: seq<byte>, mcast: bool)
    requires |a.addr| == |a.bcast| == |a.snma| == 16
  {
    ip == a.addr || (mcast && (ip == a.snma || ip == a.bcast))
  }

  ghost predicate MyIp4(h: Host, ip: seq<byte>)
    requires ValidHost(h)
  {
    exists i :: h.addr4Pos <= i < |h.addrs| && Matches4(h.addrs[i], ip, true)
  }

  ghost predicate MyIp6(h: Host, ip: seq<byte>)
    requires ValidHost(h)
  {
    exists i :: 0 <= i < |h.addrs| && Matches6(h.addrs[i], ip, true)
  }

  /** `is_my_ip4`: the first matching interface address from the first IPv4 one on, or 65535. */
  method IsMyIp4(h: Host, ip: seq<byte>, bcast: bool) returns (r: nat)
    requires ValidHost(h) && |h.addrs| < 0xFFFF
    ensures r < |h.addrs| ==> h.addr4Pos <= r && Matches4(h.addrs[r], ip, bcast)
    ensures forall i :: h.addr4Pos <= i < r && i < |h.addrs| ==> !Matches4(h.addrs[i], ip, bcast)
    ensures r < |h.addrs| || r == 0xFFFF
    ensures bcast ==> (r != 0xFFFF <==> MyIp4(h, ip))
  {
    var idx := h.addr4Pos;
    while idx < |h.addrs|
      invariant forall i :: h.addr4Pos <= i < idx && i < |h.addrs| ==> !Matches4(h.addrs[i], ip, bcast)
    {
      if Matches4(h.addrs[idx], ip, bcast) {
        return idx;
      }
      idx := idx + 1;
    }
    return 0xFFFF;
  }

  /** `is_my_ip6`: the same over all interface addresses. */
  method IsMyIp6(h: Host, ip: seq<byte>, mcast: bool) returns (r: nat)
    requires ValidHost(h) && |h.addrs| < 0xFFFF
    ensures r < |h.addrs| ==> Matches6(h.addrs[r], ip, mcast)
    ensures forall i :: 0 <= i < r && i < |h.addrs| ==> !Matches6(h.addrs[i], ip, mcast)
    ensures r < |h.addrs| || r == 0xFFFF
    ensures mcast ==> (r != 0xFFFF <==> MyIp6(h, ip))
  {
    var idx := 0;
    while idx < |h.addrs|
      invariant forall i :: 0 <= i < idx && i < |h.addrs| ==> !Matches6(h.addrs[i], ip, mcast)
    {
      if Matches6(h.addrs[idx], ip, mcast) {
        return idx;
      }
      idx := idx + 1;
    }
    return 0xFFFF;
  }

  /** What reception tells the socket layer: sender, local address, where the payload starts in the packet and its
      length, the TOS byte and the TTL. */
  datatype Rx =
    | Dropped
    | Received(src: seq<byte>, sport: seq<byte>, dst: seq<byte>, dport: seq<byte>,
               off: nat, len: nat, tos: byte, ttl: byte)

  /** The IP payload length, from either header. */
  function Plen(ip: seq<byte>): U16
    requires HasHeader(ip)
  {
    if Version(ip) == 4 then Plen4(ip) else Be16(ip, 4)
  }

  /** The datagram length `udp_rx` goes by: the smaller of the UDP length and the IP payload length. */
  function UdpLen(ip: seq<byte>): U16
    requires HasHeader(ip) && HdrLen(ip) + 8 <= |ip|
  {
    var u := Be16(ip, HdrLen(ip) + 4);
    if u < Plen(ip) then u else Plen(ip)
  }

  /** Header, UDP header and the length `udp_rx` goes by stay inside the packet buffer. */
  predicate InBuffer(ip: seq<byte>) {
    HasHeader(ip) && HdrLen(ip) + 8 <= |ip| && Covers(ip, HdrLen(ip) + UdpLen(ip))
  }

  /** `ip6_tos` on the first two header bytes. */
  function Tos(ip: seq<byte>): byte
    requires HasHeader(ip)
  {
    if Version(ip) == 4 then ip[1] else
      var hi: nat := ip[0] % 16;
      hi * 16 + ip[1] / 16
  }

  /** `udp_rx` up to the socket lookup. */
  function UdpRx(ip: seq<byte>): Rx
    requires InBuffer(ip)
  {
    var h := HdrLen(ip);
    if Plen(ip) < 8 then Dropped
    else if Be16(ip, h + 6) != 0 && PayloadValue(ip, h + UdpLen(ip)) != 0 then Dropped
    else if Version(ip) == 4 then
      Received(ip[12..16], ip[h..h + 2], ip[16..20], ip[h + 2..h + 4],
               h + 8, (UdpLen(ip) - 8) % 0x1_0000, Tos(ip), ip[8])
    else
      Received(ip[8..24], ip[h..h + 2], ip[24..40], ip[h + 2..h + 4],
               h + 8, (UdpLen(ip) - 8) % 0x1_0000, Tos(ip), ip[7])
  }

  /** `ip4_rx`: version, destination, header checksum, fragmentation, protocol. */
  ghost function Ip4Rx(h: Host, ip: seq<byte>): Rx
    requires ValidHost(h) && InBuffer(ip)
  {
    if Version(ip) != 4 || !MyIp4(h, ip[16..20]) || Cksum(ip[..HdrLen(ip)]) != 0 then Dropped
    else if ip[6] % 32 != 0 || ip[7] != 0 then Dropped
    else if ip[9] == 17 then UdpRx(ip) else Dropped
  }

  /** `ip6_rx`: version, destination, next header. */
  ghost function Ip6Rx(h: Host, ip: seq<byte>): Rx
    requires ValidHost(h) && InBuffer(ip)
  {
    if Version(ip) != 6 || !MyIp6(h, ip[24..40]) then Dropped
    else if ip[6] == 17 then UdpRx(ip) else Dropped
  }

  /** The destinations `eth_rx` takes: our own, broadcast, and the IPv6 multicast prefix. */
  predicate MyMac(h: Host, dst: seq<byte>)
    requires |dst| == 6
  {
    dst == h.mac || dst == [255, 255, 255, 255, 255, 255] || dst[..2] == [0x33, 0x33]
  }

  /** `eth_rx`: is the frame for us, and which protocol does it carry. */
  ghost function EthRx(h: Host, buf: seq<byte>): Rx
    requires ValidHost(h) && |buf| >= 14 && InBuffer(buf[14..])
  {
    if !MyMac(h, buf[..6]) then Dropped
    else if buf[12..14] == [0x86, 0xdd] then (if h.haveIp6 then Ip6Rx(h, buf[14..]) else Dropped)
    else if buf[12..14] == [0x08, 0x00] then (if h.haveIp4 then Ip4Rx(h, buf[14..]) else Dropped)
    else Dropped
  }
}
