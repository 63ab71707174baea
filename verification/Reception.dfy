/** The receiving path as a whole: a frame in a receive slot, the checks on it, the socket table, and the w_iov that
    takes it over or is lost. */
module Reception {
  import opened Options
  import opened Checksum
  import opened PayloadChecksum
  import opened Datagram
  import DatagramTx
  import Khash
  import NetmapEngine
  import NetmapProtocol
  import NetmapRuns
  import NetmapSafety
  import RoundTrip
  import SockBackend
  import SockTable
  import SockTuple

  // ----- addresses of a packet, as the socket table sees them

  function Raw(b: seq<byte>): (r: seq<bv8>)
    ensures |r| == |b|
  {
    seq(|b|, i requires 0 <= i < |b| => Bv8(b[i]))
  }

  function Bv8(x: byte): bv8 { x as bv8 }

  /** Two bytes in network order. */
  function Pair(hi: bv8, lo: bv8): bv16 { ((hi as bv16) << 8) | (lo as bv16) }

  /** An IPv4 address leaves the rest of its 16 bytes unused; what they hold is never compared. */
  function Address(b: seq<byte>): (a: SockTuple.Addr)
    requires |b| == 4 || |b| == 16
    ensures |a.ip| == 16
  {
    if |b| == 4 then SockTuple.Addr(SockTuple.AF_INET, Raw(b) + [0, 0, 0, 0, 0, 0, 0, 0, 0, 0, 0, 0])
    else SockTuple.Addr(SockTuple.AF_INET6, Raw(b))
  }

  function Port(b: seq<byte>): bv16
    requires |b| == 2
  {
    Pair(Bv8(b[0]), Bv8(b[1]))
  }

  function End(addr: seq<byte>, port: seq<byte>): (a: SockTuple.SockAddr)
    requires (|addr| == 4 || |addr| == 16) && |port| == 2
    ensures |a.addr.ip| == 16
  {
    SockTuple.SockAddr(Address(addr), Port(port))
  }

  /** The table tells the ends of packets of one family apart exactly as their bytes do. */
  lemma EndTells(a: seq<byte>, p: seq<byte>, b: seq<byte>, q: seq<byte>)
    requires (|a| == 4 || |a| == 16) && (|b| == 4 || |b| == 16) && |p| == |q| == 2
    ensures SockTuple.SockAddrCmp(End(a, p), End(b, q)) <==> a == b && p == q
  {
    hide Address, Port;
    PortTells(p, q);
    AddressTells(a, b);
  }

  lemma PortTells(p: seq<byte>, q: seq<byte>)
    requires |p| == |q| == 2
    ensures Port(p) == Port(q) <==> p == q
  {
    hide Bv8;
    PairTells(Bv8(p[0]), Bv8(p[1]), Bv8(q[0]), Bv8(q[1]));
    Bv8Tells(p[0], q[0]);
    Bv8Tells(p[1], q[1]);
    assert p == [p[0], p[1]] && q == [q[0], q[1]];
  }

  lemma PairTells(a: bv8, b: bv8, c: bv8, d: bv8)
    ensures Pair(a, b) == Pair(c, d) <==> a == c && b == d
  {}

  lemma RawTells(a: seq<byte>, b: seq<byte>)
    requires |a| == |b|
    ensures Raw(a) == Raw(b) <==> a == b
  {
    hide Bv8;
    if Raw(a) == Raw(b) {
      forall i | 0 <= i < |a|
        ensures a[i] == b[i]
      {
        assert Raw(a)[i] == Raw(b)[i];
        Bv8Tells(a[i], b[i]);
      }
    }
  }

  predicate Is8(b: bv8, n: nat) { b as nat == n }

  predicate Is16(b: bv16, n: nat) { b as nat == n }

  lemma ByteWord(x: nat)
    requires x < 256
    ensures Is8(x as bv8, x)
  {}

  lemma PairWord(hi: bv8, lo: bv8)
    ensures Is16(((hi as bv16) << 8) | (lo as bv16), (hi as nat) * 256 + lo as nat)
  {}

  lemma Bv8Value(x: byte)
    ensures Is8(Bv8(x), x)
  {
    hide Is8;
    ByteWord(x);
  }

  lemma Bv8Tells(x: byte, y: byte)
    ensures Bv8(x) == Bv8(y) <==> x == y
  {
    hide Bv8;
    Bv8Value(x);
    Bv8Value(y);
  }

  lemma PairValue(hi: bv8, lo: bv8)
    ensures Is16(Pair(hi, lo), (hi as nat) * 256 + lo as nat)
  {
    hide Is16;
    PairWord(hi, lo);
  }

  /** The table has the bytes and the number that the packet has. */
  lemma EndValues(a: seq<byte>, p: seq<byte>)
    requires (|a| == 4 || |a| == 16) && |p| == 2
    ensures var e := End(a, p); var hi: nat, lo: nat := p[0], p[1];
            && e.addr.af == (if |a| == 4 then 2 else 10)
            && (forall i :: 0 <= i < |a| ==> e.addr.ip[i] as nat == a[i])
            && e.port as nat == hi * 256 + lo
  {
    hide Bv8, Pair;
    forall i | 0 <= i < |a|
      ensures End(a, p).addr.ip[i] as nat == a[i]
    {
      Bv8Value(a[i]);
    }
    PairValue(Bv8(p[0]), Bv8(p[1]));
    Bv8Value(p[0]);
    Bv8Value(p[1]);
  }

  lemma AddressTells(a: seq<byte>, b: seq<byte>)
    requires (|a| == 4 || |a| == 16) && (|b| == 4 || |b| == 16)
    ensures SockTuple.AddrCmp(Address(a), Address(b)) <==> a == b
  {
    hide Raw;
    if |a| == |b| {
      RawTells(a, b);
      if |a| == 4 {
        assert Address(a).ip[..4] == Raw(a) && Address(b).ip[..4] == Raw(b);
      }
    }
  }

  function Target(ip: seq<byte>): (a: SockTuple.SockAddr)
    requires InBuffer(ip)
    ensures |a.addr.ip| == 16
  {
    var h := HdrLen(ip);
    End(if Version(ip) == 4 then ip[16..20] else ip[24..40], ip[h + 2..h + 4])
  }

  function Sender(ip: seq<byte>): (a: SockTuple.SockAddr)
    requires InBuffer(ip)
    ensures |a.addr.ip| == 16
  {
    var h := HdrLen(ip);
    End(if Version(ip) == 4 then ip[12..16] else ip[8..24], ip[h..h + 2])
  }

  // ----- what becomes of a frame

  /** The length or the checksum of the datagram is wrong. */
  predicate Malformed(ip: seq<byte>)
    requires InBuffer(ip)
  {
    Plen(ip) < 8 || (Be16(ip, HdrLen(ip) + 6) != 0 && PayloadValue(ip, HdrLen(ip) + UdpLen(ip)) != 0)
  }

  /** `udp_rx` returns false after it has taken a w_iov: the datagram is malformed, or no socket is there for it. */
  ghost predicate Refused(w: SockTable.World, ip: seq<byte>)
    requires InBuffer(ip)
  {
    Malformed(ip) || SockTable.Deliver(w, Target(ip), Sender(ip)) == None
  }

  /** `eth_rx` and `ip4_rx` or `ip6_rx` hand the frame to `udp_rx`. */
  ghost predicate ToUdp(h: Host, frame: seq<byte>)
    requires ValidHost(h) && |frame| >= 14 && InBuffer(frame[14..])
  {
    var ip := frame[14..];
    && MyMac(h, frame[..6])
    && if frame[12..14] == [0x86, 0xdd] then h.haveIp6 && Version(ip) == 6 && MyIp6(h, ip[24..40]) && ip[6] == 17
       else
         && frame[12..14] == [0x08, 0x00] && h.haveIp4 && Version(ip) == 4 && MyIp4(h, ip[16..20])
         && Cksum(ip[..HdrLen(ip)]) == 0 && ip[6] % 32 == 0 && ip[7] == 0 && ip[9] == 17
  }

  /** Both are what reception reports: a frame is received if and only if it gets to `udp_rx` and is well formed. */
  lemma ReceivedIff(h: Host, frame: seq<byte>)
    requires ValidHost(h) && |frame| >= 14 && InBuffer(frame[14..])
    ensures EthRx(h, frame) == if ToUdp(h, frame) then UdpRx(frame[14..]) else Dropped
    ensures EthRx(h, frame).Received? <==> ToUdp(h, frame) && !Malformed(frame[14..])
  {
    hide PayloadValue, Cksum, MyIp4, MyIp6, InBuffer, UdpLen, Plen;
  }

  /** The receive slot exists. */
  ghost predicate Slot(s: NetmapProtocol.State, i: nat, j: nat) {
    NetmapProtocol.WellShaped(s) && i < |s.rx| && j < |s.rx[i]|
  }

  /** The event that a packet handed to `udp_rx` causes. */
  ghost function Outcome(w: SockTable.World, i: nat, j: nat, ip: seq<byte>): NetmapProtocol.Event
    requires InBuffer(ip)
  {
    if Refused(w, ip) then NetmapProtocol.Reject else NetmapProtocol.Deliver(i, j)
  }

  /** The engine after `udp_rx`. */
  ghost function AfterUdp(s: NetmapProtocol.State, w: SockTable.World, i: nat, j: nat, ip: seq<byte>)
    : NetmapProtocol.State
    requires Slot(s, i, j) && InBuffer(ip)
  {
    NetmapProtocol.Apply(s, Outcome(w, i, j, ip))
  }

  /** The socket that gets the packet, if there is a w_iov for it. */
  ghost function Receiver(w: SockTable.World, ip: seq<byte>): (r: Option<nat>)
    requires InBuffer(ip)
    ensures r == None <==> Refused(w, ip)
  {
    if Malformed(ip) then None else SockTable.Deliver(w, Target(ip), Sender(ip))
  }

  /** The checks of `udp_rx` and its two lookups. */
  method Verdict(b: SockBackend.Backend, ip: seq<byte>) returns (r: Option<nat>)
    requires b.Valid() && InBuffer(ip)
    ensures r == Receiver(b.View(), ip)
  {
    hide PayloadValue, SockTable.Deliver, Khash.Table.Valid, Khash.Table.Contents, SockTable.AllSized;
    var h := HdrLen(ip);
    if Plen(ip) < 8 {
      return None;
    }
    if Be16(ip, h + 6) != 0 {
      var ck := PayloadCksum(ip, h + UdpLen(ip));
      if ck != 0 {
        return None;
      }
    }
    r := b.Demux(Target(ip), Sender(ip));
  }

  /** `udp_rx` on receive slot (i, j) with packet ip. */
  method UdpReceive(e: NetmapEngine.Engine, b: SockBackend.Backend, i: nat, j: nat, ip: seq<byte>)
    returns (r: Option<nat>)
    requires Slot(e.S(), i, j) && b.Valid() && InBuffer(ip)
    modifies e
    ensures e.S() == AfterUdp(old(e.S()), old(b.View()), i, j, ip)
    ensures r == if |old(e.pool)| == 0 then None else Receiver(old(b.View()), ip)
    ensures e.rings == old(e.rings) && e.curTxr == old(e.curTxr)
    ensures r.Some? ==>
              var v := old(e.pool)[0];
              && e.idx == old(e.idx)[v := old(e.rx[i][j])] && e.base == old(e.base)[v := old(e.rx[i][j])]
              && e.rx == old(e.rx)[i := old(e.rx[i])[j := old(e.idx)[v]]]
              && e.pool == old(e.pool)[1..] && e.out == old(e.out) + {v}
    ensures r.None? ==>
              && e.idx == old(e.idx) && e.base == old(e.base) && e.rx == old(e.rx) && e.out == old(e.out)
              && e.pool == if |old(e.pool)| == 0 then [] else old(e.pool)[1..]
  {
    hide InBuffer, Refused, NetmapProtocol.Apply, NetmapProtocol.WellShaped, Khash.Table.Valid, Khash.Table.Contents,
      SockTable.AllSized, Receiver;
    r := Verdict(b, ip);
    var delivered := e.UdpRx(i, j, r.Some?);
    if !delivered {
      r := None;
    }
  }

  // ----- when a w_iov is lost

  /** `udp_rx` loses a w_iov, one that is then in neither the pool nor the application's hands, if and only if there was
      one to take and the packet is refused. */
  lemma LostIffRefused(s: NetmapProtocol.State, w: SockTable.World, i: nat, j: nat, ip: seq<byte>)
    requires Slot(s, i, j) && InBuffer(ip) && NetmapSafety.Partition(s)
    ensures var t := AfterUdp(s, w, i, j, ip);
            |t.pool| + |t.out| == |s.pool| + |s.out| - (if |s.pool| > 0 && Refused(w, ip) then 1 else 0)
  {
    hide InBuffer, Refused, NetmapProtocol.Apply, NetmapProtocol.WellShaped, NetmapSafety.Partition;
    NetmapRuns.ApplyAccounts(s, Outcome(w, i, j, ip));
  }

  /** An input: while no socket is bound, every packet is refused. */
  lemma RefusedWithoutSockets(ip: seq<byte>)
    requires InBuffer(ip)
    ensures Refused(SockTable.World([], map[], map[]), ip)
  {
    hide InBuffer, Malformed, Target, Sender;
  }

  /** An input for every table: an IPv4 packet too short for a UDP header. */
  lemma ShortIsRefused(w: SockTable.World)
    ensures var ip := [0x45, 0, 0, 20] + seq(24, _ => 0); InBuffer(ip) && Refused(w, ip)
  {
    var ip: seq<byte> := [0x45, 0, 0, 20] + seq(24, _ => 0);
    assert HdrLen(ip) == 20 && Plen(ip) == 0;
  }

  /** What happens to an engine: a packet comes to `udp_rx` while the socket table is w, or something else happens. */
  datatype Act = Packet(w: SockTable.World, i: nat, j: nat, ip: seq<byte>) | Other(e: NetmapProtocol.Event)

  ghost predicate Fit(a: Act) {
    match a
    case Packet(_, _, _, ip) => InBuffer(ip)
    case Other(e) => !e.Reject?
  }

  ghost function EventOf(a: Act): NetmapProtocol.Event
    requires Fit(a)
  {
    match a
    case Packet(w, i, j, ip) => Outcome(w, i, j, ip)
    case Other(e) => e
  }

  ghost function Events(acts: seq<Act>): seq<NetmapProtocol.Event>
    requires forall k :: 0 <= k < |acts| ==> Fit(acts[k])
  {
    seq(|acts|, k requires 0 <= k < |acts| => EventOf(acts[k]))
  }

  /** How many packets of a run are refused while there is a w_iov to take. */
  ghost function Refusals(s: NetmapProtocol.State, acts: seq<Act>): nat
    requires forall k :: 0 <= k < |acts| ==> Fit(acts[k])
    requires NetmapRuns.LegalRun(s, Events(acts))
    decreases |acts|
  {
    if |acts| == 0 then 0
    else
      FirstEvent(s, acts);
      var lost := acts[0].Packet? && Refused(acts[0].w, acts[0].ip) && |s.pool| > 0;
      (if lost then 1 else 0) + Refusals(NetmapProtocol.Apply(s, EventOf(acts[0])), acts[1..])
  }

  lemma FirstEvent(s: NetmapProtocol.State, acts: seq<Act>)
    requires |acts| > 0 && forall k :: 0 <= k < |acts| ==> Fit(acts[k])
    requires NetmapRuns.LegalRun(s, Events(acts))
    ensures NetmapProtocol.WellShaped(s) && NetmapProtocol.Legal(s, EventOf(acts[0]))
    ensures NetmapRuns.LegalRun(NetmapProtocol.Apply(s, EventOf(acts[0])), Events(acts[1..]))
    ensures Events(acts)[0] == EventOf(acts[0]) && Events(acts)[1..] == Events(acts[1..])
  {
    assert Events(acts)[1..] == Events(acts[1..]);
  }

  /** Over every legal run, pool and application together lose exactly one w_iov for each packet that is refused while
      the pool is not empty, and none otherwise. */
  lemma RunLosesRefused(s: NetmapProtocol.State, acts: seq<Act>)
    requires forall k :: 0 <= k < |acts| ==> Fit(acts[k])
    requires NetmapRuns.LegalRun(s, Events(acts)) && NetmapSafety.Partition(s)
    ensures var t := NetmapRuns.Final(s, Events(acts));
            |t.pool| + |t.out| + Refusals(s, acts) == |s.pool| + |s.out|
  {
    hide NetmapSafety.Partition, NetmapRuns.Final, NetmapRuns.LegalRun, NetmapRuns.Losses, Refusals, Events;
    NetmapRuns.RunLosesRejects(s, Events(acts));
    LossesAreRefusals(s, acts);
  }

  lemma {:induction false} LossesAreRefusals(s: NetmapProtocol.State, acts: seq<Act>)
    requires forall k :: 0 <= k < |acts| ==> Fit(acts[k])
    requires NetmapRuns.LegalRun(s, Events(acts))
    ensures NetmapRuns.Losses(s, Events(acts)) == Refusals(s, acts)
    decreases |acts|
  {
    hide Refused, InBuffer, NetmapProtocol.Apply, NetmapProtocol.Legal, NetmapProtocol.WellShaped;
    if |acts| > 0 {
      FirstEvent(s, acts);
      LossesAreRefusals(NetmapProtocol.Apply(s, EventOf(acts[0])), acts[1..]);
    }
  }

  // ----- whole frames

  /** The tests of `ip4_rx` before it hands a packet to `udp_rx`. */
  method Ip4Takes(h: Host, ip: seq<byte>) returns (ok: bool)
    requires ValidHost(h) && |h.addrs| < 0xFFFF && InBuffer(ip)
    ensures ok <==>
              && Version(ip) == 4 && MyIp4(h, ip[16..20])
              && Cksum(ip[..HdrLen(ip)]) == 0 && ip[6] % 32 == 0 && ip[7] == 0 && ip[9] == 17
  {
    hide Cksum, MyIp4;
    if Version(ip) != 4 {
      return false;
    }
    var idx := IsMyIp4(h, ip[16..20], true);
    if idx == 0xFFFF {
      return false;
    }
    var ck := IpCksum(ip[..HdrLen(ip)]);
    ok := ck == 0 && ip[6] % 32 == 0 && ip[7] == 0 && ip[9] == 17;
  }

  /** The tests of `ip6_rx`. */
  method Ip6Takes(h: Host, ip: seq<byte>) returns (ok: bool)
    requires ValidHost(h) && |h.addrs| < 0xFFFF && InBuffer(ip)
    ensures ok <==> Version(ip) == 6 && MyIp6(h, ip[24..40]) && ip[6] == 17
  {
    hide MyIp6;
    if Version(ip) != 6 {
      return false;
    }
    var idx := IsMyIp6(h, ip[24..40], true);
    ok := idx != 0xFFFF && ip[6] == 17;
  }

  /** `eth_rx`. A frame that does not get to `udp_rx` changes nothing. */
  method EthReceive(e: NetmapEngine.Engine, b: SockBackend.Backend, h: Host, i: nat, j: nat, frame: seq<byte>)
    returns (r: Option<nat>)
    requires Slot(e.S(), i, j) && b.Valid() && ValidHost(h) && |h.addrs| < 0xFFFF
    requires |frame| >= 14 && InBuffer(frame[14..])
    modifies e
    ensures e.S() == if ToUdp(h, frame) then AfterUdp(old(e.S()), old(b.View()), i, j, frame[14..]) else old(e.S())
    ensures r == if |old(e.pool)| == 0 || !ToUdp(h, frame) then None else Receiver(old(b.View()), frame[14..])
    ensures e.rings == old(e.rings) && e.curTxr == old(e.curTxr)
    ensures r.Some? ==>
              var v := old(e.pool)[0];
              && e.idx == old(e.idx)[v := old(e.rx[i][j])] && e.base == old(e.base)[v := old(e.rx[i][j])]
              && e.rx == old(e.rx)[i := old(e.rx[i])[j := old(e.idx)[v]]]
              && e.pool == old(e.pool)[1..] && e.out == old(e.out) + {v}
  {
    hide InBuffer, Refused, NetmapProtocol.Apply, NetmapProtocol.WellShaped, Khash.Table.Valid, Khash.Table.Contents,
      SockTable.AllSized, Receiver, AfterUdp, Cksum, MyIp4, MyIp6, Slot;
    var ip, take := frame[14..], false;
    if MyMac(h, frame[..6]) {
      if frame[12..14] == [0x86, 0xdd] {
        if h.haveIp6 {
          take := Ip6Takes(h, ip);
        }
      } else if frame[12..14] == [0x08, 0x00] && h.haveIp4 {
        take := Ip4Takes(h, ip);
      }
    }
    r := None;
    if take {
      r := UdpReceive(e, b, i, j, ip);
    }
  }

  // ----- frames that `udp_tx` sent

  /** A received frame is reported with the addresses that the lookups use. */
  lemma ReceivedFrom(h: Host, frame: seq<byte>)
    requires ValidHost(h) && |frame| >= 14 && InBuffer(frame[14..]) && EthRx(h, frame).Received?
    ensures var ip, rx := frame[14..], EthRx(h, frame);
            && ToUdp(h, frame) && !Malformed(ip)
            && Target(ip) == End(rx.dst, rx.dport) && Sender(ip) == End(rx.src, rx.sport)
  {
    hide PayloadValue, Cksum, MyIp4, MyIp6, UdpLen, Plen;
    ReceivedIff(h, frame);
  }

  /** A stored socket is there for datagrams between these ends. */
  ghost predicate Listens(w: SockTable.World, x: nat, to: SockTuple.SockAddr, from: SockTuple.SockAddr)
    requires SockTable.AllSized(w.tups) && |to.addr.ip| == |from.addr.ip| == 16
  {
    && SockTable.Stored(w, x)
    && (|| SockTuple.TupleCmp(w.tups[x], SockTable.Query(to, from))
        || SockTuple.TupleCmp(w.tups[x], SockTable.Query(to, SockTuple.UNSET)))
  }

  lemma ListenedIsNotRefused(w: SockTable.World, ip: seq<byte>, x: nat)
    requires SockTable.Own(w) && InBuffer(ip) && !Malformed(ip) && Listens(w, x, Target(ip), Sender(ip))
    ensures !Refused(w, ip)
  {
    hide InBuffer, Malformed, Target, Sender, SockTable.Own, SockTable.Stored, SockTuple.TupleCmp, SockTable.Deliver;
    SockTable.DeliverIsMatch(w, Target(ip), Sender(ip), x);
  }

  /** No IPv4 frame that `udp_tx` sent to a stored matching socket is refused, so none of them costs a w_iov. */
  lemma SentNotRefused4(h: Host, buf: seq<byte>, s: DatagramTx.Sock, v: DatagramTx.Iov, env: DatagramTx.Env,
                        w: SockTable.World, x: nat)
    requires ValidHost(h) && h.haveIp4 && SockTable.Own(w)
    requires DatagramTx.Sized(s, v, env, 4) && v.len + 28 < 0x1_0000 && 42 + v.len <= |buf|
    requires MyMac(h, DatagramTx.Dmac(s, env)) && MyIp4(h, DatagramTx.Dst(s, v))
    requires Listens(w, x, End(DatagramTx.Dst(s, v), DatagramTx.Dport(s, v)), End(DatagramTx.Src(s, env), s.lport))
    ensures var f := DatagramTx.Frame4(buf, s, v, env);
            InBuffer(f[14..]) && ToUdp(h, f) && !Refused(w, f[14..])
  {
    hide InBuffer, Malformed, Target, Sender, Listens, EthRx, ToUdp, Refused, SockTable.Own, MyIp4, End,
      DatagramTx.Frame4;
    RoundTrip.RoundTrip4(h, buf, s, v, env);
    var f := DatagramTx.Frame4(buf, s, v, env);
    ReceivedFrom(h, f);
    ListenedIsNotRefused(w, f[14..], x);
  }

  /** Nor is any IPv6 frame. */
  lemma SentNotRefused6(h: Host, buf: seq<byte>, s: DatagramTx.Sock, v: DatagramTx.Iov, env: DatagramTx.Env,
                        w: SockTable.World, x: nat)
    requires ValidHost(h) && h.haveIp6 && SockTable.Own(w)
    requires DatagramTx.Sized(s, v, env, 16) && v.len + 48 < 0x1_0000 && 62 + v.len <= |buf|
    requires MyMac(h, DatagramTx.Dmac(s, env)) && MyIp6(h, DatagramTx.Dst(s, v))
    requires Listens(w, x, End(DatagramTx.Dst(s, v), DatagramTx.Dport(s, v)), End(DatagramTx.Src(s, env), s.lport))
    ensures var f := DatagramTx.Frame6(buf, s, v, env);
            InBuffer(f[14..]) && ToUdp(h, f) && !Refused(w, f[14..])
  {
    hide InBuffer, Malformed, Target, Sender, Listens, EthRx, ToUdp, Refused, SockTable.Own, MyIp6, End,
      DatagramTx.Frame6;
    RoundTrip.RoundTrip6(h, buf, s, v, env);
    var f := DatagramTx.Frame6(buf, s, v, env);
    ReceivedFrom(h, f);
    ListenedIsNotRefused(w, f[14..], x);
  }

  // ----- damaged packets

  /** A well-formed packet that carries a checksum, with one word of its addresses, ports, checksum or data replaced
      by a word that is not congruent to it modulo 65535, is malformed; the UDP length is left alone, and the
      checksum is not erased. */
  lemma DamageIsRefused(ip: seq<byte>, k: nat, x: U16)
    requires InBuffer(ip) && !Malformed(ip) && 20 <= HdrLen(ip) && Be16(ip, HdrLen(ip) + 6) != 0
    requires if Version(ip) == 4 then ip[9] == 17 else ip[6] == 17
    requires Guarded(ip, HdrLen(ip) + UdpLen(ip), k) && k != HdrLen(ip) + 4 && (k == HdrLen(ip) + 6 ==> x != 0)
    requires (x - Word(ip[k], ip[k + 1])) % 65535 != 0
    ensures InBuffer(Store16(ip, k, x)) && Malformed(Store16(ip, k, x))
  {
    hide PayloadValue, Word, Store16;
    var r, h := Store16(ip, k, x), HdrLen(ip);
    CorruptionDetected(ip, h + UdpLen(ip), k, x);
    DamageKeepsLengths(ip, k, x);
  }

  lemma DamageKeepsLengths(ip: seq<byte>, k: nat, x: U16)
    requires InBuffer(ip) && 20 <= HdrLen(ip) && Guarded(ip, HdrLen(ip) + UdpLen(ip), k) && k != HdrLen(ip) + 4
    requires Be16(ip, HdrLen(ip) + 6) != 0 && (k == HdrLen(ip) + 6 ==> x != 0)
    ensures var r := Store16(ip, k, x);
            && |r| == |ip| && HasHeader(r) && HdrLen(r) == HdrLen(ip) && UdpLen(r) == UdpLen(ip)
            && Plen(r) == Plen(ip) && Be16(r, HdrLen(r) + 6) != 0
  {
    var r, h := Store16(ip, k, x), HdrLen(ip);
    assert r[0] == ip[0] && HdrLen(r) == h;
    assert if Version(ip) == 4 then r[2] == ip[2] && r[3] == ip[3] else r[4] == ip[4] && r[5] == ip[5];
    assert r[h + 4] == ip[h + 4] && r[h + 5] == ip[h + 5];
  }

  /** An IPv4 packet with one word of its header, other than the first, so replaced does not get to `udp_rx`. */
  lemma HeaderDamageDropped(h: Host, frame: seq<byte>, k: nat, x: U16)
    requires ValidHost(h) && |frame| >= 14 && InBuffer(frame[14..]) && ToUdp(h, frame) && frame[12..14] == [0x08, 0x00]
    requires k % 2 == 0 && 2 <= k && k + 2 <= HdrLen(frame[14..]) && HdrLen(frame[14..]) <= |frame| - 14
    requires (x - Word(frame[14 + k], frame[15 + k])) % 65535 != 0
    requires InBuffer(Store16(frame, 14 + k, x)[14..])
    ensures EthRx(h, Store16(frame, 14 + k, x)) == Dropped
  {
    hide Cksum, Word, MyIp4, MyIp6, PayloadValue, InBuffer;
    var ip, f := frame[14..], Store16(frame, 14 + k, x);
    var n := HdrLen(ip);
    assert f[14..] == Store16(ip, k, x) && f[12..14] == frame[12..14];
    assert f[14..][0] == ip[0] && HdrLen(f[14..]) == n;
    assert f[14..][..n] == Store16(ip[..n], k, x);
    ChangeDetected(ip[..n], k, x);
  }
}
