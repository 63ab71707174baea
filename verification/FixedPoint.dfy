/** Division by multiplication: `div_mulhi64` and the nanosecond macros built on it. */
module FixedPoint {
  import Probing

  type U64 = x: nat | x < 0x1_0000_0000_0000_0000

  const T32: nat := 0x1_0000_0000
  const T64: nat := 0x1_0000_0000_0000_0000

  /** The sums of `div_mulhi64` over the four partial products, each in its own width. */
  function SumParts(hi: nat, m1: nat, m2: nat, lo: nat): nat {
    var carry := (m1 % T32 + m2 % T32 + lo / T32) % T64 / T32 % T32;
    (hi + m1 / T32 + m2 / T32 + carry) % T64
  }

  /** `div_mulhi64`: split both factors into 32-bit halves, multiply crosswise in 64 bits, and add up. */
  function DivMulHi64(a: U64, b: U64): nat {
    var al, ah, bl, bh := a % T32, a / T32, b % T32, b / T32;
    SumParts(Mul64(ah, bh), Mul64(ah, bl), Mul64(bh, al), Mul64(al, bl))
  }

  function Mul64(x: nat, y: nat): nat {
    x * y % T64
  }

  /** The four partial products of two 64-bit numbers. */
  lemma SchoolbookProduct(ah: nat, al: nat, bh: nat, bl: nat)
    ensures (ah * T32 + al) * (bh * T32 + bl) == ah * bh * T64 + (ah * bl + bh * al) * T32 + al * bl
  {
  }

  lemma MulMono(x: nat, m: nat, y: nat)
    requires x <= m
    ensures x * y <= m * y
  {
    assert m * y - x * y == (m - x) * y;
  }

  /** A product of 32-bit numbers fits in 64 bits with room to spare. */
  lemma ProductBound(x: nat, y: nat)
    requires x < T32 && y < T32
    ensures x * y <= 0xFFFF_FFFE_0000_0001 && Mul64(x, y) == x * y
  {
    MulMono(x, T32 - 1, y);
    Fits64(x * y);
  }

  lemma Fits64(p: nat)
    requires p < T64
    ensures p % T64 == p
  {
  }

  /** Summing the halves of the partial products with their carry gives the quotient by 2^64. */
  lemma CarryChain(hi: nat, m1: nat, m2: nat, lo: nat)
    requires m1 < T64 && m2 < T64 && lo < T64
    ensures (hi * T64 + (m1 + m2) * T32 + lo) / T64 ==
            hi + m1 / T32 + m2 / T32 + (m1 % T32 + m2 % T32 + lo / T32) / T32
  {
    var s := m1 % T32 + m2 % T32 + lo / T32;
    var q := hi + m1 / T32 + m2 / T32 + s / T32;
    assert hi * T64 + (m1 + m2) * T32 + lo == q * T64 + (s % T32 * T32 + lo % T32);
  }

  lemma PartsExact(hi: nat, m1: nat, m2: nat, lo: nat)
    requires hi <= 0xFFFF_FFFE_0000_0001 && m1 <= 0xFFFF_FFFE_0000_0001
    requires m2 <= 0xFFFF_FFFE_0000_0001 && lo <= 0xFFFF_FFFE_0000_0001
    ensures SumParts(hi, m1, m2, lo) == (hi * T64 + (m1 + m2) * T32 + lo) / T64
  {
    CarryChain(hi, m1, m2, lo);
    SmallCarry(m1 % T32 + m2 % T32 + lo / T32);
    HighHalf(m1);
    HighHalf(m2);
  }

  lemma SmallCarry(s: nat)
    requires s < 3 * T32
    ensures s % T64 / T32 % T32 == s / T32 <= 2
  {
    assert s % T64 == s;
  }

  lemma HighHalf(m: nat)
    requires m <= 0xFFFF_FFFE_0000_0001
    ensures m / T32 <= 0xFFFF_FFFE
  {
  }

  /** `div_mulhi64` is the high half of the 128-bit product: none of its 64-bit intermediates overflows. */
  lemma MulHiExact(a: U64, b: U64)
    ensures DivMulHi64(a, b) == a * b / T64
  {
    hide SumParts, Mul64;
    var al, ah, bl, bh := a % T32, a / T32, b % T32, b / T32;
    ProductBound(ah, bl);
    ProductBound(bh, al);
    ProductBound(al, bl);
    ProductBound(ah, bh);
    PartsExact(ah * bh, ah * bl, bh * al, al * bl);
    assert a == ah * T32 + al && b == bh * T32 + bl;
    SchoolbookProduct(ah, al, bh, bl);
  }

  // ----- reciprocal multiplication

  lemma ReciprocalParts(x: nat, c: nat, d: nat, t: nat, e: nat)
    requires d > 0 && c * d == t + e
    ensures c * x == x / d * t + (e * (x / d) + c * (x % d))
  {
    var q, r := x / d, x % d;
    assert x == q * d + r;
    assert c * x == c * (q * d) + c * r;
    assert c * (q * d) == q * (c * d) == q * (t + e) == q * t + e * q;
  }

  lemma QuotientOfSum(q: nat, r: nat, t: nat)
    requires t > 0
    ensures (q * t + r) / t == q <==> r < t
  {
    var k := r / t;
    assert r == k * t + r % t;
    assert (q + k) * t == q * t + k * t;
    Probing.ModUnique(q * t + r, t, q + k, r % t);
    if k == 0 {
      assert r == r % t;
    } else {
      MulMono(1, k, t);
    }
  }

  /** Multiplying by a reciprocal that is too large by e parts in t, and dividing by t, gives the exact quotient if
      and only if the accumulated error stays below t. */
  lemma Reciprocal(x: nat, c: nat, d: nat, t: nat, e: nat)
    requires d > 0 && t > 0 && c * d == t + e
    ensures c * x / t == x / d <==> e * (x / d) + c * (x % d) < t
  {
    ReciprocalParts(x, c, d, t, e);
    var q, r := x / d, e * (x / d) + c * (x % d);
    QuotientOfSum(q, r, t);
  }

  /** Two divisions in a row are one. */
  lemma DivTwice(n: nat, s: nat)
    requires s > 0
    ensures n / T64 / s == n / (T64 * s)
  {
    var q, r := n / T64, n % T64;
    var p, u := q / s, q % s;
    assert q * T64 == p * (T64 * s) + u * T64 by {
      assert q == p * s + u;
    }
    assert n == p * (T64 * s) + (u * T64 + r);
    MulMono(u, s - 1, T64);
    Probing.ModUnique(n, T64 * s, p, u * T64 + r);
  }

  function ApproxNsToS(x: U64): nat {
    DivMulHi64(0x112e0be826d694b3, x) / 0x400_0000
  }

  function ApproxNsToMs(x: U64): nat {
    DivMulHi64(0x431bde82d7b634db, x) / 0x4_0000
  }

  function ApproxNsToUs(x: U64): nat {
    DivMulHi64(0x20c49ba5e353f7d, x) / 8
  }

  /** `APPROX_NS_TO_S` is exact far beyond its documented range of 2^60, up to the first value for which it is not. */
  lemma NsToSExact(x: U64)
    requires x < 12271925811999999999
    ensures ApproxNsToS(x) == x / 1_000_000_000
  {
    hide DivMulHi64;
    ErrorToS(x / 1_000_000_000, x % 1_000_000_000);
    NsToSIff(x);
  }

  /** Over all 64-bit values: exact if and only if the error of the rounded reciprocal has not reached the next
      quotient. */
  lemma NsToSIff(x: U64)
    ensures ApproxNsToS(x) == x / 1_000_000_000 <==>
            100875776 * (x / 1_000_000_000) + 0x112e0be826d694b3 * (x % 1_000_000_000) < T64 * 0x400_0000
  {
    hide DivMulHi64;
    MulHiExact(0x112e0be826d694b3, x);
    DivTwice(0x112e0be826d694b3 * x, 0x400_0000);
    Reciprocal(x, 0x112e0be826d694b3, 1_000_000_000, T64 * 0x400_0000, 100875776);
  }

  lemma NsToSFails()
    ensures ApproxNsToS(12271925811999999999) != 12271925811999999999 / 1_000_000_000
  {
    hide DivMulHi64;
    MulHiExact(0x112e0be826d694b3, 12271925811999999999);
  }

  /** `APPROX_NS_TO_MS` is exact for every 64-bit value. */
  lemma NsToMsExact(x: U64)
    ensures ApproxNsToMs(x) == x / 1_000_000
  {
    hide DivMulHi64;
    MulHiExact(0x431bde82d7b634db, x);
    DivTwice(0x431bde82d7b634db * x, 0x4_0000);
    ErrorToMs(x / 1_000_000, x % 1_000_000);
    Reciprocal(x, 0x431bde82d7b634db, 1_000_000, T64 * 0x4_0000, 175296);
  }

  /** `APPROX_NS_TO_US` is exact beyond its documented range of 2^60, up to the first value for which it is not. */
  lemma NsToUsExact(x: U64)
    requires x < 2049638230412172999
    ensures ApproxNsToUs(x) == x / 1_000
  {
    hide DivMulHi64;
    ErrorToUs(x / 1_000, x % 1_000);
    NsToUsIff(x);
  }

  lemma NsToUsIff(x: U64)
    ensures ApproxNsToUs(x) == x / 1_000 <==> 72 * (x / 1_000) + 0x20c49ba5e353f7d * (x % 1_000) < T64 * 8
  {
    hide DivMulHi64;
    MulHiExact(0x20c49ba5e353f7d, x);
    DivTwice(0x20c49ba5e353f7d * x, 8);
    Reciprocal(x, 0x20c49ba5e353f7d, 1_000, T64 * 8, 72);
  }

  lemma NsToUsFails()
    ensures ApproxNsToUs(2049638230412172999) != 2049638230412172999 / 1_000
  {
    hide DivMulHi64;
    MulHiExact(0x20c49ba5e353f7d, 2049638230412172999);
  }

  lemma ErrorToS(q: nat, r: nat)
    requires 1_000_000_000 * q + r < 12271925811999999999 && r < 1_000_000_000
    ensures 100875776 * q + 0x112e0be826d694b3 * r < T64 * 0x400_0000
  {
  }

  lemma ErrorToUs(q: nat, r: nat)
    requires 1_000 * q + r < 2049638230412172999 && r < 1_000
    ensures 72 * q + 0x20c49ba5e353f7d * r < T64 * 8
  {
  }

  lemma ErrorToMs(q: nat, r: nat)
    requires 1_000_000 * q + r < T64 && r < 1_000_000
    ensures 175296 * q + 0x431bde82d7b634db * r < T64 * 0x4_0000
  {
  }
}
