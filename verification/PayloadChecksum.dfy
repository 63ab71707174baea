/** `payload_cksum`: the transport checksum over a pseudo-header and the payload of an IPv4 or IPv6 packet. */
module PayloadChecksum {
  import opened Checksum

  /** A 16-bit field in network byte order, read with `bswap16`. */
  function Be16(d: seq<byte>, i: nat): U16
    requires i + 2 <= |d|
  {
    Word(d[i + 1], d[i])
  }

  /** The two bytes of x in network byte order. */
  function BeBytes(x: U16): (b: seq<byte>)
    ensures |b| == 2
  {
    [Hi(x), Lo(x)]
  }

  /** `ip_v` and the header length the code works with. */
  function Version(ip: seq<byte>): nat
    requires |ip| > 0
  {
    ip[0] / 16
  }

  function HdrLen(ip: seq<byte>): nat
    requires |ip| > 0
  {
    if Version(ip) == 4 then ip[0] % 16 * 4 else 40
  }

  /** The fixed part of the header is there. */
  predicate HasHeader(ip: seq<byte>) {
    |ip| >= 20 && (Version(ip) != 4 ==> |ip| >= 40)
  }

  /** The length covers the header and lies within the packet. */
  predicate Covers(ip: seq<byte>, len: nat) {
    HasHeader(ip) && HdrLen(ip) <= len <= |ip| && len < 0x1_0000
  }

  /** The transport length the code derives from the IPv4 header, in 16 bits. */
  function Plen4(ip: seq<byte>): U16
    requires |ip| >= 20
  {
    (Be16(ip, 2) - HdrLen(ip)) % 0x1_0000
  }

  /** A protocol number shifted left, by a factor. */
  function Shifted(p: byte, factor: nat): nat {
    var n: nat := p;
    n * factor
  }

  /** The exact sum behind `payload_cksum`, before any 32-bit wrap. */
  function PayloadSum(ip: seq<byte>, len: nat): nat
    requires Covers(ip, len)
  {
    (if Version(ip) == 4 then
       Shifted(ip[9], 256) + LeSum(ip[12..16]) + LeSum(ip[16..20]) + LeSum(BeBytes(Plen4(ip)))
     else
       Shifted(ip[6], 0x100_0000) + LeSum(ip[8..24]) + LeSum(ip[24..40]) + LeSum(ip[4..6]))
    + LeSum(ip[HdrLen(ip)..len])
  }

  /** `sum += csum_oc16(...)` in 32 bits. */
  method Accumulate(sum: nat, data: seq<byte>, ghost total: nat) returns (sum': nat)
    requires sum == Low32(total)
    ensures sum' == Low32(total + LeSum(data))
  {
    hide Low32, Add32;
    var d := SumWords(data);
    AddWraps(total, LeSum(data));
    sum' := Add32(sum, d);
  }

  /** The value `payload_cksum` returns. */
  function PayloadValue(ip: seq<byte>, len: nat): U16
    requires Covers(ip, len)
  {
    0xFFFF - Ones(Low32(PayloadSum(ip, len)))
  }

  method PayloadCksum(ip: seq<byte>, len: nat) returns (r: U16)
    requires Covers(ip, len)
    ensures r == PayloadValue(ip, len)
  {
    hide LeSum, Ones;
    var sum: nat;
    ghost var total: nat;
    if Version(ip) == 4 {
      sum := Shifted(ip[9], 256);
      total := sum;
      sum := Accumulate(sum, ip[12..16], total);
      total := total + LeSum(ip[12..16]);
      sum := Accumulate(sum, ip[16..20], total);
      total := total + LeSum(ip[16..20]);
      sum := Accumulate(sum, BeBytes(Plen4(ip)), total);
      total := total + LeSum(BeBytes(Plen4(ip)));
    } else {
      sum := Shifted(ip[6], 0x100_0000);
      total := sum;
      sum := Accumulate(sum, ip[8..24], total);
      total := total + LeSum(ip[8..24]);
      sum := Accumulate(sum, ip[24..40], total);
      total := total + LeSum(ip[24..40]);
      sum := Accumulate(sum, ip[4..6], total);
      total := total + LeSum(ip[4..6]);
    }
    sum := Accumulate(sum, ip[HdrLen(ip)..len], total);
    r := Reduce(sum);
  }

  // ----- what the standards say

  /** The pseudo-header of RFC 768 (UDP) and of section 8.1 of RFC 8200 (IPv6). */
  function Pseudo(ip: seq<byte>): (d: seq<byte>)
    requires HasHeader(ip)
    ensures |d| % 2 == 0
  {
    if Version(ip) == 4 then ip[12..16] + ip[16..20] + [0, ip[9]] + BeBytes(Plen4(ip))
    else ip[8..24] + ip[24..40] + [0, 0] + ip[4..6] + [0, 0] + [0, ip[6]]
  }

  /** The block the transport checksum is defined over. */
  function Covered(ip: seq<byte>, len: nat): seq<byte>
    requires Covers(ip, len)
  {
    Pseudo(ip) + ip[HdrLen(ip)..len]
  }

  /** The next-header term shifted by 24 and the one shifted by 8 differ by a multiple of 65535. */
  lemma CoveredSum(ip: seq<byte>, len: nat)
    requires Covers(ip, len)
    ensures LeSum(Covered(ip, len)) ==
            PayloadSum(ip, len) - (if Version(ip) == 4 then 0 else Shifted(ip[6], 256 * 65535))
  {
    hide LeSum;
    SumOfParts(Pseudo(ip), ip[HdrLen(ip)..len]);
    SumOfPair(0, 0);
    if Version(ip) == 4 {
      SumOfPair(0, ip[9]);
      var a, b, c, d := ip[12..16], ip[16..20], [0, ip[9]], BeBytes(Plen4(ip));
      SumOfParts(a, b);
      SumOfParts(a + b, c);
      SumOfParts(a + b + c, d);
    } else {
      SumOfPair(0, ip[6]);
      var a, b, z, c, d := ip[8..24], ip[24..40], [0, 0], ip[4..6], [0, ip[6]];
      SumOfParts(a, b);
      SumOfParts(a + b, z);
      SumOfParts(a + b + z, c);
      SumOfParts(a + b + z + c, z);
      SumOfParts(a + b + z + c + z, d);
    }
  }

  lemma SumBounds(ip: seq<byte>, len: nat)
    requires Covers(ip, len)
    ensures PayloadSum(ip, len) < 0x2_0000_0000
    ensures Version(ip) == 4 || ip[6] <= 128 ==> PayloadSum(ip, len) < 0x1_0000_0000
  {
    hide LeSum;
    LeSumBound(ip[HdrLen(ip)..len]);
    if Version(ip) == 4 {
      LeSumBound(ip[12..16]);
      LeSumBound(ip[16..20]);
      LeSumBound(BeBytes(Plen4(ip)));
    } else {
      LeSumBound(ip[8..24]);
      LeSumBound(ip[24..40]);
      LeSumBound(ip[4..6]);
    }
  }

  lemma WrapShowsInOnes(sum: nat, k: nat)
    requires sum < 0x2_0000_0000 && k * 65535 <= sum
    requires sum - k * 65535 == 0 ==> sum == 0
    ensures Ones(sum % 0x1_0000_0000) == Ones(sum - k * 65535) <==> sum < 0x1_0000_0000
  {
    var t := sum - k * 65535;
    var j := OnesParts(t);
    var m := OnesParts(sum % 0x1_0000_0000);
    if sum < 0x1_0000_0000 {
      if sum > 0 {
        OnesUnique(sum, j + k, Ones(t));
      }
    } else {
      assert sum % 0x1_0000_0000 == sum - 65537 * 65535 - 1;
    }
  }

  /** `payload_cksum` is the checksum of the standards exactly when the 32-bit sum does not wrap. */
  lemma PayloadExact(ip: seq<byte>, len: nat)
    requires Covers(ip, len)
    ensures PayloadValue(ip, len) == Cksum(Covered(ip, len)) <==> PayloadSum(ip, len) < 0x1_0000_0000
  {
    hide LeSum, Ones;
    CoveredSum(ip, len);
    SumBounds(ip, len);
    WrapShowsInOnes(PayloadSum(ip, len), if Version(ip) == 4 then 0 else Shifted(ip[6], 256));
  }

  /** It never wraps for IPv4, nor for IPv6 with a next header up to 128; UDP is 17 and ICMPv6 is 58. */
  lemma PayloadCorrect(ip: seq<byte>, len: nat)
    requires Covers(ip, len) && (Version(ip) == 4 || ip[6] <= 128)
    ensures PayloadValue(ip, len) == Cksum(Covered(ip, len))
  {
    hide LeSum, Ones;
    SumBounds(ip, len);
    PayloadExact(ip, len);
  }

  // ----- what the transport checksum detects

  /** The word at k is in an address, or after the header. */
  predicate Guarded(ip: seq<byte>, len: nat, k: nat)
    requires Covers(ip, len)
  {
    && k % 2 == 0
    && (|| (if Version(ip) == 4 then 12 <= k < 20 else 8 <= k < 40)
        || (HdrLen(ip) <= k && k + 2 <= len))
  }

  /** Where in the covered block the word at k is. */
  function Place(ip: seq<byte>, k: nat): int
    requires HasHeader(ip)
  {
    if Version(ip) == 4 then (if k < 20 then k - 12 else 12 + k - HdrLen(ip))
    else if k < 40 then k - 8 else 40 + k - HdrLen(ip)
  }

  lemma StoreElsewhere(d: seq<byte>, k: nat, x: U16, a: nat, b: nat)
    requires k + 2 <= |d| && a <= b <= |d| && (b <= k || k + 2 <= a)
    ensures Store16(d, k, x)[a..b] == d[a..b]
  {
  }

  lemma StoreInside(d: seq<byte>, k: nat, x: U16, a: nat, b: nat)
    requires a <= k && k + 2 <= b <= |d|
    ensures Store16(d, k, x)[a..b] == Store16(d[a..b], k - a, x)
  {
  }

  lemma StoreFront(a: seq<byte>, b: seq<byte>, k: nat, x: U16)
    requires k + 2 <= |a|
    ensures Store16(a, k, x) + b == Store16(a + b, k, x)
  {
  }

  lemma StoreBack(a: seq<byte>, b: seq<byte>, k: nat, x: U16)
    requires k + 2 <= |b|
    ensures a + Store16(b, k, x) == Store16(a + b, |a| + k, x)
  {
  }

  /** The pseudo-header without the addresses depends on the rest of the header only. */
  function Tail(ip: seq<byte>): seq<byte>
    requires HasHeader(ip)
  {
    if Version(ip) == 4 then [0, ip[9]] + BeBytes(Plen4(ip)) else [0, 0] + ip[4..6] + [0, 0] + [0, ip[6]]
  }

  lemma PseudoParts(ip: seq<byte>)
    requires HasHeader(ip)
    ensures Pseudo(ip) == (if Version(ip) == 4 then ip[12..20] else ip[8..40]) + Tail(ip)
    ensures |Tail(ip)| == if Version(ip) == 4 then 4 else 8
  {
    if Version(ip) == 4 {
      assert ip[12..20] == ip[12..16] + ip[16..20];
    } else {
      assert ip[8..40] == ip[8..24] + ip[24..40];
    }
  }

  lemma SameTail(ip: seq<byte>, r: seq<byte>)
    requires HasHeader(ip) && |r| == |ip| && r[..8] == ip[..8] && (Version(ip) == 4 ==> r[..12] == ip[..12])
    ensures HasHeader(r) && Version(r) == Version(ip) && HdrLen(r) == HdrLen(ip) && Tail(r) == Tail(ip)
    ensures if Version(ip) == 4 then r[9] == ip[9] else r[6] == ip[6]
  {
    assert forall i :: 0 <= i < 8 ==> r[i] == r[..8][i] == ip[..8][i];
    if Version(ip) == 4 {
      assert r[9] == r[..12][9] == ip[..12][9];
    } else {
      assert r[4..6] == r[..8][4..6] == ip[..8][4..6];
    }
  }

  lemma StoreIsCovered(ip: seq<byte>, len: nat, k: nat, x: U16)
    requires Covers(ip, len) && 20 <= HdrLen(ip) && HdrLen(ip) % 2 == 0 && Guarded(ip, len, k)
    ensures var r, p := Store16(ip, k, x), Place(ip, k);
            && Covers(r, len) && Version(r) == Version(ip)
            && (if Version(ip) == 4 then r[9] == ip[9] else r[6] == ip[6])
            && 0 <= p && p + 2 <= |Covered(ip, len)| && p % 2 == 0
            && Covered(ip, len)[p] == ip[k] && Covered(ip, len)[p + 1] == ip[k + 1]
            && Covered(r, len) == Store16(Covered(ip, len), p, x)
  {
    hide Store16, Pseudo, Tail;
    var r, h := Store16(ip, k, x), HdrLen(ip);
    var a, b := if Version(ip) == 4 then 12 else 8, if Version(ip) == 4 then 20 else 40;
    StoreElsewhere(ip, k, x, 0, a);
    StoreElsewhere(ip, k, x, 0, 8);
    SameTail(ip, r);
    PseudoParts(ip);
    PseudoParts(r);
    var rest := ip[h..len];
    if k < b {
      StoreInside(ip, k, x, a, b);
      StoreElsewhere(ip, k, x, h, len);
      StoreFront(ip[a..b], Tail(ip), k - a, x);
      StoreFront(Pseudo(ip), rest, k - a, x);
    } else {
      StoreElsewhere(ip, k, x, a, b);
      StoreInside(ip, k, x, h, len);
      StoreBack(Pseudo(ip), rest, k - h, x);
    }
  }

  /** In a packet whose checksum verifies, replacing any word of the addresses or after the header by one that is not
      congruent to it modulo 65535 makes the checksum fail; a congruent one, the other form of zero, is not noticed. */
  lemma CorruptionDetected(ip: seq<byte>, len: nat, k: nat, x: U16)
    requires Covers(ip, len) && 20 <= HdrLen(ip) && HdrLen(ip) % 2 == 0 && Guarded(ip, len, k)
    requires if Version(ip) == 4 then ip[9] != 0 else 0 < ip[6] <= 128
    requires PayloadValue(ip, len) == 0
    ensures var r := Store16(ip, k, x);
            Covers(r, len) && (PayloadValue(r, len) == 0 <==> (x - Word(ip[k], ip[k + 1])) % 65535 == 0)
  {
    hide LeSum, Cksum, PayloadValue, Covered, Word, Store16;
    var r, p := Store16(ip, k, x), Place(ip, k);
    StoreIsCovered(ip, len, k, x);
    PayloadCorrect(ip, len);
    PayloadCorrect(r, len);
    ChangeDetected(Covered(ip, len), p, x);
    ProtocolCounts(r, len);
  }

  /** The protocol number is in the covered block, so the sum is never 0. */
  lemma ProtocolCounts(ip: seq<byte>, len: nat)
    requires Covers(ip, len) && if Version(ip) == 4 then ip[9] != 0 else ip[6] != 0
    ensures LeSum(Covered(ip, len)) > 0
  {
    hide LeSum;
    CoveredSum(ip, len);
  }
}
