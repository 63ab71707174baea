/** Socket four-tuples: how the source compares and hashes them. */
module SockTuple {
  import opened KhashSizing

  const AF_INET: nat := 2
  const AF_INET6: nat := 10

  /** An address family and the 16 bytes of the address union; IPv4 uses the first four. */
  datatype Addr = Addr(af: nat, ip: seq<bv8>)

  datatype SockAddr = SockAddr(addr: Addr, port: bv16)

  datatype Tuple = Tuple(local: SockAddr, remote: SockAddr, scope: nat)

  const UNSET := SockAddr(Addr(0, [0, 0, 0, 0, 0, 0, 0, 0, 0, 0, 0, 0, 0, 0, 0, 0]), 0)

  predicate Sized(t: Tuple) {
    |t.local.addr.ip| == 16 && |t.remote.addr.ip| == 16
  }

  // ---- Comparison ----

  predicate AddrCmp(a: Addr, b: Addr)
    requires |a.ip| == |b.ip| == 16
  {
    a.af == b.af && if a.af == AF_INET then a.ip[..4] == b.ip[..4] else a.ip == b.ip
  }

  predicate SockAddrCmp(a: SockAddr, b: SockAddr)
    requires |a.addr.ip| == |b.addr.ip| == 16
  {
    a.port == b.port && AddrCmp(a.addr, b.addr)
  }

  predicate TupleCmp(a: Tuple, b: Tuple)
    requires Sized(a) && Sized(b)
  {
    SockAddrCmp(a.local, b.local) && SockAddrCmp(a.remote, b.remote)
  }

  /** What a comparison sees of a tuple: two tuples are equal to the source when these are the same value. */
  datatype Key = Key(localAf: nat, localIp: seq<bv8>, localPort: bv16,
                     remoteAf: nat, remoteIp: seq<bv8>, remotePort: bv16)

  function Seen(a: Addr): seq<bv8>
    requires |a.ip| == 16
  {
    if a.af == AF_INET then a.ip[..4] else a.ip
  }

  function KeyOf(t: Tuple): Key
    requires Sized(t)
  {
    Key(t.local.addr.af, Seen(t.local.addr), t.local.port, t.remote.addr.af, Seen(t.remote.addr), t.remote.port)
  }

  /** The comparison is equality of keys, so it is an equivalence; scope identifiers and unused bytes are not
      compared. */
  lemma CmpIsKeyEquality(a: Tuple, b: Tuple)
    requires Sized(a) && Sized(b)
    ensures TupleCmp(a, b) <==> KeyOf(a) == KeyOf(b)
  {
    if a.local.addr.af == b.local.addr.af && a.remote.addr.af == b.remote.addr.af {
      assert AddrCmp(a.local.addr, b.local.addr) <==> Seen(a.local.addr) == Seen(b.local.addr);
      assert AddrCmp(a.remote.addr, b.remote.addr) <==> Seen(a.remote.addr) == Seen(b.remote.addr);
    }
  }

  /** Which fields decide: ports, families, and of the addresses four bytes for IPv4 and all sixteen otherwise. */
  lemma CmpFields(a: Tuple, b: Tuple)
    requires Sized(a) && Sized(b)
    ensures TupleCmp(a, b) <==>
              && a.local.port == b.local.port && a.remote.port == b.remote.port
              && a.local.addr.af == b.local.addr.af && a.remote.addr.af == b.remote.addr.af
              && (forall i :: 0 <= i < (if a.local.addr.af == 2 then 4 else 16) ==>
                    a.local.addr.ip[i] == b.local.addr.ip[i])
              && (forall i :: 0 <= i < (if a.remote.addr.af == 2 then 4 else 16) ==>
                    a.remote.addr.ip[i] == b.remote.addr.ip[i])
  {
    AddrFields(a.local.addr, b.local.addr);
    AddrFields(a.remote.addr, b.remote.addr);
  }

  lemma AddrFields(a: Addr, b: Addr)
    requires |a.ip| == |b.ip| == 16
    ensures AddrCmp(a, b) <==>
              a.af == b.af && forall i :: 0 <= i < (if a.af == 2 then 4 else 16) ==> a.ip[i] == b.ip[i]
  {
    if AddrCmp(a, b) && a.af == 2 {
      assert forall i :: 0 <= i < 4 ==> a.ip[i] == a.ip[..4][i] && b.ip[i] == b.ip[..4][i];
    }
  }

  // ---- The FNV-1a hash ----

  /** One round. The source names the offset basis "prime" and the other way round; the factor is odd all the same. */
  function Round(h: bv32, b: bv8): bv32 { (h ^ (b as bv32)) * 0x811C_9DC5 }

  function Fnv(s: seq<bv8>): bv32 {
    if s == [] then 0x100_0193 else Round(Fnv(s[..|s| - 1]), s[|s| - 1])
  }

  method Fnv1a32(buf: seq<bv8>) returns (hash: bv32)
    ensures hash == Fnv(buf)
  {
    hide Round;
    hash := 0x100_0193;
    for i := 0 to |buf|
      invariant hash == Fnv(buf[..i])
    {
      hash := Round(hash, buf[i]);
      assert buf[..i + 1][..i] == buf[..i];
    }
    assert buf[..|buf|] == buf;
  }

  /** The state before a round, from the state after it. */
  function Unround(r: bv32, b: bv8): bv32 { (r * 0xBD90_D90D) ^ (b as bv32) }

  /** The byte of a round, from the states around it. */
  function ByteOf(h: bv32, r: bv32): bv8 { (((r * 0xBD90_D90D) ^ h) & 0xFF) as bv8 }

  predicate UnroundIs(r: bv32, b: bv8, h: bv32) { Unround(r, b) == h }

  predicate ByteIs(h: bv32, r: bv32, b: bv8) { ByteOf(h, r) == b }

  lemma RoundWords(h: bv32, b: bv8)
    ensures UnroundIs((h ^ (b as bv32)) * 0x811C_9DC5, b, h)
    ensures ByteIs(h, (h ^ (b as bv32)) * 0x811C_9DC5, b)
  {}

  lemma RoundNames(h: bv32, b: bv8)
    ensures UnroundIs(Round(h, b), b, h) && ByteIs(h, Round(h, b), b)
  {
    hide UnroundIs, ByteIs;
    RoundWords(h, b);
  }

  lemma RoundUndone(h: bv32, b: bv8)
    ensures Unround(Round(h, b), b) == h && ByteOf(h, Round(h, b)) == b
  {
    hide Round, Unround, ByteOf;
    RoundNames(h, b);
  }

  /** Buffers of one length that differ in a single byte never collide. */
  lemma {:induction false} OneByteTells(a: seq<bv8>, b: seq<bv8>, i: nat)
    requires |a| == |b| && i < |a| && a[i] != b[i]
    requires forall j :: 0 <= j < |a| && j != i ==> a[j] == b[j]
    ensures Fnv(a) != Fnv(b)
  {
    hide Round, Unround, ByteOf;
    var n := |a| - 1;
    RoundUndone(Fnv(a[..n]), a[n]);
    RoundUndone(Fnv(b[..n]), b[n]);
    if i == n {
      assert a[..n] == b[..n];
    } else {
      OneByteTells(a[..n], b[..n], i);
    }
  }

  lemma FnvVectors()
    ensures Fnv([]) == 0x100_0193 && Fnv([0x61]) == 0xEEAA_E93A
  {
    assert Fnv([0x61]) == Round(Fnv([0x61][..0]), 0x61);
  }

  // ---- Hashing a tuple ----

  /** The two bytes of a port in network order. */
  function PortBytes(p: bv16): seq<bv8> { [(p >> 8) as bv8, (p & 0xFF) as bv8] }

  function Wrap(n: nat): U32 { n % 0x1_0000_0000 }

  function AddrHash(a: Addr): nat
    requires |a.ip| == 16
  {
    if a.af == AF_INET then Fnv(a.ip[..4]) as nat else Fnv(a.ip) as nat
  }

  function TupleHash(t: Tuple): U32
    requires Sized(t)
  {
    var local := AddrHash(t.local.addr) + Fnv(PortBytes(t.local.port)) as nat;
    Wrap(if t.remote.addr.af != 0
         then local + AddrHash(t.remote.addr) + Fnv(PortBytes(t.local.port)) as nat
         else local)
  }

  /** The hash of any tuple with this key. */
  function KeyHash(k: Key): U32 {
    var local := Fnv(k.localIp) as nat + Fnv(PortBytes(k.localPort)) as nat;
    Wrap(if k.remoteAf != 0 then local + Fnv(k.remoteIp) as nat + Fnv(PortBytes(k.localPort)) as nat else local)
  }

  lemma HashIsKeyHash(t: Tuple)
    requires Sized(t)
    ensures TupleHash(t) == KeyHash(KeyOf(t))
  {
    hide Fnv, PortBytes, Wrap;
  }

  /** Tuples that compare equal hash equally, as the table needs. */
  lemma EqualTuplesHashEqually(a: Tuple, b: Tuple)
    requires Sized(a) && Sized(b) && TupleCmp(a, b)
    ensures TupleHash(a) == TupleHash(b)
  {
    hide TupleHash, KeyHash, TupleCmp, KeyOf;
    CmpIsKeyEquality(a, b);
    HashIsKeyHash(a);
    HashIsKeyHash(b);
  }

  /** The remote port never reaches the hash: all connections of a local port to one remote address collide. */
  lemma RemotePortIgnored(t: Tuple, p: bv16)
    requires Sized(t)
    ensures TupleHash(t.(remote := t.remote.(port := p))) == TupleHash(t)
  {
    hide Fnv, PortBytes, Wrap;
  }

  // ---- What the hash tells apart ----

  lemma WrapTells(a: nat, x: nat, y: nat)
    requires x < 0x1_0000_0000 && y < 0x1_0000_0000 && x != y
    ensures Wrap(a + x) != Wrap(a + y)
  {
    if x < y {
      var d := y - x;
      var q, r := (a + x) / 0x1_0000_0000, (a + x) % 0x1_0000_0000;
      assert a + y == q * 0x1_0000_0000 + (r + d);
    } else {
      var d := x - y;
      var q, r := (a + y) / 0x1_0000_0000, (a + y) % 0x1_0000_0000;
      assert a + x == q * 0x1_0000_0000 + (r + d);
    }
  }

  lemma SameNumber(a: bv32, b: bv32)
    ensures a as nat == b as nat ==> a == b
  {
    if a as nat == b as nat {
      assert (a as nat) as bv32 == (b as nat) as bv32;
    }
  }

  function Code(s: seq<bv8>): nat { Fnv(s) as nat }

  lemma CodeTells(a: seq<bv8>, b: seq<bv8>, i: nat)
    requires |a| == |b| && i < |a| && a[i] != b[i]
    requires forall j :: 0 <= j < |a| && j != i ==> a[j] == b[j]
    ensures Code(a) != Code(b) && Code(a) < 0x1_0000_0000 && Code(b) < 0x1_0000_0000
  {
    hide Fnv;
    OneByteTells(a, b, i);
    SameNumber(Fnv(a), Fnv(b));
  }

  /** What the rest of a tuple adds to the code of its local address. */
  function Rest(t: Tuple): nat
    requires Sized(t)
  {
    var p := Code(PortBytes(t.local.port));
    if t.remote.addr.af != 0 then p + Code(Seen(t.remote.addr)) + p else p
  }

  lemma HashParts(t: Tuple)
    requires Sized(t)
    ensures TupleHash(t) == Wrap(Rest(t) + Code(Seen(t.local.addr)))
  {
    hide Fnv, PortBytes, Wrap;
  }

  /** Tuples that differ in one byte of what is seen of the local address never collide, connected or not. */
  lemma LocalByteTells(a: Tuple, b: Tuple, i: nat)
    requires Sized(a) && Sized(b) && a.remote == b.remote && a.local.port == b.local.port
    requires a.local.addr.af == b.local.addr.af && i < |Seen(a.local.addr)|
    requires Seen(a.local.addr)[i] != Seen(b.local.addr)[i]
    requires forall j :: 0 <= j < |Seen(a.local.addr)| && j != i ==> Seen(a.local.addr)[j] == Seen(b.local.addr)[j]
    ensures TupleHash(a) != TupleHash(b)
  {
    hide Code, PortBytes, Wrap, TupleHash;
    CodeTells(Seen(a.local.addr), Seen(b.local.addr), i);
    WrapTells(Rest(a), Code(Seen(a.local.addr)), Code(Seen(b.local.addr)));
    HashParts(a);
    HashParts(b);
  }

  /** Sockets that are only bound, on one address, with ports that differ in one byte, never collide. */
  lemma BoundPortTells(t: Tuple, p: bv16)
    requires Sized(t) && t.remote.addr.af == 0
    requires (PortBytes(t.local.port)[0] == PortBytes(p)[0]) != (PortBytes(t.local.port)[1] == PortBytes(p)[1])
    ensures TupleHash(Tuple(SockAddr(t.local.addr, p), t.remote, t.scope)) != TupleHash(t)
  {
    hide Code, PortBytes, Wrap, TupleHash;
    var u := Tuple(SockAddr(t.local.addr, p), t.remote, t.scope);
    PortLength(t.local.port);
    PortLength(p);
    CodeTells(PortBytes(t.local.port), PortBytes(p), if PortBytes(t.local.port)[0] == PortBytes(p)[0] then 1 else 0);
    WrapTells(Code(Seen(t.local.addr)), Rest(t), Rest(u));
    HashParts(t);
    HashParts(u);
  }

  lemma PortLength(p: bv16)
    ensures |PortBytes(p)| == 2
  {
  }
}
