/** The sizing arithmetic of khash: rounding a request up to a power of two, and the load bound. */
module KhashSizing {
  import opened Bits
  import opened Probing

  type U32 = x: nat | x < 0x1_0000_0000

  /** All bits from the top bit of a downwards. */
  function Fill(a: nat): nat {
    if a == 0 then 0 else 2 * Fill(a / 2) + 1
  }

  /** Decrement and increment of a 32-bit word, with their wrap. */
  function Dec32(x: U32): U32 {
    if x == 0 then 0xFFFF_FFFF else x - 1
  }

  function Inc32(x: nat): nat {
    if x == 0xFFFF_FFFF then 0 else x + 1
  }

  /** What `kroundup32` computes. */
  function RoundUp32(x: U32): nat {
    Inc32(Fill(Dec32(x)))
  }

  /** The bucket count `kh_resize` settles on for a request. */
  function Target(x: U32): nat {
    if RoundUp32(x) < 4 then 4 else RoundUp32(x)
  }

  /** `__HASH_UPPER`: a 64-bit product, which wraps, shifted right by 37. */
  function HashUpper(x: nat): (r: U32)
    ensures r < 0x800_0000
  {
    x * 77 * 0x51EB851F % 0x1_0000_0000_0000_0000 / 0x20_0000_0000
  }

  /** The or of a, a / 2, a / 4, ..., w terms in all. */
  function Smear(a: nat, w: nat): nat {
    if w == 0 then 0 else Or(a, Smear(a / 2, w - 1))
  }

  lemma {:induction false} SmearHalf(a: nat, w: nat)
    ensures Smear(a, w) / 2 == Smear(a / 2, w)
    decreases w
  {
    if w > 0 {
      SmearHalf(a / 2, w - 1);
      OrHalf(a, Smear(a / 2, w - 1));
    }
  }

  lemma {:induction false} SmearShift(a: nat, w: nat, k: nat)
    ensures Shr(Smear(a, w), k) == Smear(Shr(a, k), w)
    decreases k
  {
    if k > 0 {
      SmearHalf(a, w);
      SmearShift(a / 2, w, k - 1);
    }
  }

  lemma {:induction false} SmearJoin(a: nat, w: nat, v: nat)
    ensures Or(Smear(a, w), Smear(Shr(a, w), v)) == Smear(a, w + v)
    decreases w
  {
    if w == 0 {
      OrZero(Smear(a, v));
    } else {
      SmearJoin(a / 2, w - 1, v);
      OrAssoc(a, Smear(a / 2, w - 1), Smear(Shr(a, w), v));
    }
  }

  /** One line of `kroundup32` doubles the number of smeared bits. */
  lemma SmearDouble(a: nat, w: nat)
    ensures Or(Smear(a, w), Shr(Smear(a, w), w)) == Smear(a, w + w)
  {
    SmearShift(a, w, w);
    SmearJoin(a, w, w);
  }

  lemma {:induction false} OrFill(a: nat)
    ensures Or(a, Fill(a / 2)) == Fill(a)
  {
    if a > 1 {
      OrFill(a / 2);
    }
  }

  lemma {:induction false} SmearFill(a: nat, w: nat)
    requires a < Exp2(w)
    ensures Smear(a, w) == Fill(a)
    decreases w
  {
    if w > 0 {
      SmearFill(a / 2, w - 1);
      OrFill(a);
    }
  }

  lemma {:induction false} FillBounds(a: nat, w: nat)
    requires a < Exp2(w)
    ensures IsPow2(Fill(a) + 1) && a <= Fill(a) < Exp2(w)
    ensures a > 0 ==> Fill(a) < 2 * a
    decreases w
  {
    if a > 0 {
      FillBounds(a / 2, w - 1);
      Pow2Double(Fill(a / 2) + 1);
    }
  }

  lemma Exp2Values()
    ensures Exp2(1) == 2 && Exp2(2) == 4 && Exp2(4) == 16 && Exp2(8) == 256 && Exp2(16) == 65536
    ensures Exp2(24) == 0x100_0000 && Exp2(31) == 0x8000_0000 && Exp2(32) == 0x1_0000_0000
  {
    assert Exp2(8) == 256;
    assert Exp2(12) == 4096;
    assert Exp2(16) == 65536;
    assert Exp2(20) == 0x10_0000;
    assert Exp2(24) == 0x100_0000;
    assert Exp2(28) == 0x1000_0000;
  }

  lemma SmearOne(a: nat)
    ensures Smear(a, 1) == a
  {
    OrCommutes(a, 0);
    OrZero(a);
    assert Smear(a, 1) == Or(a, Smear(a / 2, 0));
  }

  /** `kroundup32`: five shifts and ors between a decrement and an increment. */
  method KRoundUp32(x: U32) returns (r: nat)
    ensures r == RoundUp32(x)
  {
    ghost var a: nat := Dec32(x);
    var y: nat := Dec32(x);
    SmearOne(a);
    SmearDouble(a, 1);
    y := Or(y, Shr(y, 1));
    SmearDouble(a, 2);
    y := Or(y, Shr(y, 2));
    SmearDouble(a, 4);
    y := Or(y, Shr(y, 4));
    SmearDouble(a, 8);
    y := Or(y, Shr(y, 8));
    SmearDouble(a, 16);
    y := Or(y, Shr(y, 16));
    Exp2Values();
    SmearFill(a, 32);
    r := Inc32(y);
  }

  lemma FillLeast(a: nat, p: nat)
    requires a < 0x8000_0000
    ensures IsPow2(Fill(a) + 1) && a < Fill(a) + 1 <= 0x8000_0000
    ensures IsPow2(p) && a < p ==> Fill(a) + 1 <= p
  {
    Exp2Values();
    FillBounds(a, 31);
    if IsPow2(p) && a < p < Fill(a) + 1 {
      Pow2Gap(p, Fill(a) + 1);
    }
  }

  lemma FillHigh(a: nat)
    requires 0x8000_0000 <= a < 0x1_0000_0000
    ensures Fill(a) + 1 == 0x1_0000_0000
  {
    Exp2Values();
    Pow2Literals();
    FillBounds(a, 32);
    Pow2Gap(0x8000_0000, Fill(a) + 1);
  }

  /** `kroundup32` gives the least power of two that is not below a request in 1 .. 2^31. */
  lemma RoundUpLeast(x: U32, p: nat)
    requires 1 <= x <= 0x8000_0000
    ensures IsPow2(RoundUp32(x)) && x <= RoundUp32(x) <= 0x8000_0000
    ensures IsPow2(p) && x <= p ==> RoundUp32(x) <= p
  {
    FillLeast(x - 1, p);
  }

  /** Zero and every request above 2^31 wrap round to zero. */
  lemma RoundUpWraps(x: U32)
    requires x == 0 || x > 0x8000_0000
    ensures RoundUp32(x) == 0
  {
    FillHigh(Dec32(x));
  }

  lemma {:induction false} Pow2Exp2(k: nat)
    ensures IsPow2(Exp2(k))
  {
    if k > 0 {
      Pow2Exp2(k - 1);
      Pow2Double(Exp2(k - 1));
    }
  }

  /** Different powers of two are a factor of two apart. */
  lemma {:induction false} Pow2Gap(p: nat, q: nat)
    requires IsPow2(p) && IsPow2(q) && p < q
    ensures 2 * p <= q
  {
    if p > 1 {
      Pow2Gap(p / 2, q / 2);
    }
  }

  /** A bucket count is always a power of two of at least four that fits in 32 bits. */
  lemma TargetIsTableSize(x: U32)
    ensures IsPow2(Target(x)) && 4 <= Target(x) <= 0x8000_0000
    ensures 1 <= x <= 0x8000_0000 ==> x <= Target(x)
  {
    Pow2Literals();
    if x == 0 || x > 0x8000_0000 {
      RoundUpWraps(x);
    } else {
      RoundUpLeast(x, x);
    }
  }

  /** The two requests `kh_put` makes: n - 1 keeps the size of a table, n + 1 doubles it. */
  lemma PutTargets(n: U32)
    requires IsPow2(n) && 4 <= n <= 0x4000_0000
    ensures Target(n - 1) == n && Target(n + 1) == 2 * n
  {
    RoundUpTo(n - 1, n);
    Pow2Double(n);
    RoundUpTo(n + 1, 2 * n);
  }

  /** At the largest table size the two requests aim at that size and, by wrapping, at the smallest. */
  lemma LargestTargets()
    ensures Target(0x7FFF_FFFF) == 0x8000_0000 && Target(0x8000_0001) == 4 && HashUpper(4) == 3
  {
    hide RoundUp32;
    Exp2Values();
    Pow2Exp2(31);
    RoundUpTo(0x7FFF_FFFF, 0x8000_0000);
    RoundUpWraps(0x8000_0001);
  }

  lemma HalfLargest(n: nat)
    requires IsPow2(n) && n < 0x8000_0000
    ensures n <= 0x4000_0000
  {
    Exp2Values();
    Pow2Exp2(31);
    Pow2Gap(n, 0x8000_0000);
  }

  lemma RoundUpTo(x: U32, p: nat)
    requires IsPow2(p) && p / 2 < x <= p <= 0x8000_0000 && p > 1
    ensures RoundUp32(x) == p
  {
    RoundUpLeast(x, p);
    if RoundUp32(x) < p {
      Pow2Gap(RoundUp32(x), p);
    }
  }

  lemma TargetOfOne()
    ensures Target(1) == 4
  {
    RoundUpLeast(1, 1);
  }

  /** Below the point where the rounding error of the reciprocal shows, the load bound is exact for every argument. */
  lemma HashUpperSmall(n: U32)
    requires n <= 0x200_0000
    ensures HashUpper(n) == 77 * n / 100
  {
    var q, r := 77 * n / 100, 77 * n % 100;
    var rest := 28 * q + 0x51EB851F * r;
    assert n * 77 * 0x51EB851F == q * 0x20_0000_0000 + rest;
    assert 0 <= rest < 0x20_0000_0000;
  }

  /** For a power of two the load bound is 77 percent exactly when the 64-bit product does not wrap: up to 2^27. */
  lemma HashUpperExact(n: U32)
    requires IsPow2(n)
    ensures HashUpper(n) == 77 * n / 100 <==> n <= 0x800_0000
  {
    if n <= 0x200_0000 {
      HashUpperSmall(n);
    } else {
      LargePow2(n);
      HashUpperLarge();
    }
  }

  lemma HashUpperLarge()
    ensures HashUpper(0x400_0000) == 51673825 == 77 * 0x400_0000 / 100
    ensures HashUpper(0x800_0000) == 103347650 == 77 * 0x800_0000 / 100
    ensures HashUpper(0x1000_0000) == 72477573 && HashUpper(0x2000_0000) == 10737418
    ensures HashUpper(0x4000_0000) == 21474836 && HashUpper(0x8000_0000) == 42949673
  {
  }

  lemma LargePow2(n: U32)
    requires IsPow2(n) && n > 0x200_0000
    ensures n in {0x400_0000, 0x800_0000, 0x1000_0000, 0x2000_0000, 0x4000_0000, 0x8000_0000}
  {
    Pow2Literals();
    var p: nat := 0x200_0000;
    while p < n
      invariant IsPow2(p) && p <= n
      invariant p in {0x200_0000, 0x400_0000, 0x800_0000, 0x1000_0000, 0x2000_0000, 0x4000_0000, 0x8000_0000}
    {
      Pow2Gap(p, n);
      Pow2Double(p);
      p := 2 * p;
    }
  }

  lemma Pow2Literals()
    ensures IsPow2(4) && IsPow2(0x200_0000) && IsPow2(0x8000_0000)
  {
    Exp2Values();
    Pow2Exp2(2);
    Pow2Exp2(25);
    Pow2Exp2(31);
    assert Exp2(25) == 2 * Exp2(24);
  }

  /** The load bound leaves at least one bucket free at every table size. */
  lemma HashUpperBelow(n: U32)
    requires IsPow2(n) && 4 <= n
    ensures HashUpper(n) < n
  {
    HashUpperExact(n);
  }

  lemma {:induction false} Pow2Divides(p: nat, q: nat)
    requires IsPow2(p) && IsPow2(q) && p <= q
    ensures q % p == 0
  {
    if p > 1 {
      Pow2Divides(p / 2, q / 2);
      var k := (q / 2) / (p / 2);
      assert q == k * p + 0;
      ModUnique(q, p, k, 0);
    }
  }

  lemma ModOfMultiple(x: nat, n: nat, d: nat)
    requires n > 0 && d > 0
    ensures d * n > 0 && x % (d * n) % n == x % n
  {
    MulAtLeast(d, n);
    var q, r := x / (d * n), x % (d * n);
    assert x == q * (d * n) + r;
    assert q * (d * n) == (q * d) * n;
    assert r == (r / n) * n + r % n;
    assert (q * d + r / n) * n == (q * d) * n + (r / n) * n;
    ModUnique(x, n, q * d + r / n, r % n);
  }

  lemma Pow2Divides32(n: nat) returns (d: nat)
    requires IsPow2(n) && n <= 0x8000_0000
    ensures d > 0 && d * n == 0x1_0000_0000
  {
    var big := Exp2(32);
    Exp2Values();
    Pow2Exp2(32);
    Pow2Divides(n, big);
    d := big / n;
  }

  /** Masking a 32-bit sum that wrapped gives the same bucket as masking the true sum. */
  lemma WrapKeepsRemainder(x: nat, n: nat)
    requires IsPow2(n) && n <= 0x8000_0000
    ensures x % 0x1_0000_0000 % n == x % n
  {
    var d := Pow2Divides32(n);
    ModOfMultiple(x, n, d);
  }

  /** The index update of a probe loop, as 32-bit arithmetic: it follows the walk, and is back at the start at step
      2n - 1. */
  lemma NextProbe(h: nat, step: nat, n: nat)
    requires IsPow2(n) && n <= 0x8000_0000
    ensures (Probe(h, step, n) + (step + 1)) % 0x1_0000_0000 % n == Probe(h, step + 1, n)
    ensures step + 1 < 2 * n ==> (Probe(h, step + 1, n) == Probe(h, 0, n) <==> step + 1 == 2 * n - 1)
  {
    ProbeStep(h, step, n);
    WrapKeepsRemainder(Probe(h, step, n) + (step + 1), n);
    if step + 1 < 2 * n {
      FirstReturn(h, step + 1, n);
    }
  }

  /** A table of up to 2^28 buckets that clears its tombstones, or doubles, has room for the keys it holds as long as
      they are fewer than the wrapped bound of 2^28 buckets. */
  lemma GrowthHasRoom(n: nat, size: nat)
    requires IsPow2(n) && 4 <= n <= 0x1000_0000 && size <= n && size < 72477573
    ensures var t := Target(if n > 2 * size then n - 1 else n + 1);
            size < HashUpper(t) && t <= 0x1000_0000
  {
    hide IsPow2, HashUpper, Target;
    PutTargets(n);
    HashUpperLarge();
    if n > 0x400_0000 {
      LargePow2(n);
    } else {
      HashUpperExact(n);
      Pow2Double(n);
      HashUpperExact(2 * n);
    }
  }

  lemma DoubleFits(n: nat)
    requires IsPow2(n) && n < 0x800_0000
    ensures 2 * n <= 0x800_0000
  {
    Exp2Values();
    Pow2Exp2(27);
    assert Exp2(27) == 2 * (2 * (2 * Exp2(24)));
    Pow2Gap(n, Exp2(27));
  }

  /** Where the load bound wraps: a table of 2^27 buckets that wants to double is refused from 72477573 keys on, well
      before its own bound of 103347650 is reached. */
  lemma GrowthAtWrap(size: nat)
    ensures HashUpper(0x800_0000) == 103347650
    ensures size < HashUpper(Target(0x800_0001)) <==> size < 72477573
  {
    hide IsPow2, HashUpper, Target;
    HashUpperLarge();
    Exp2Values();
    Pow2Exp2(27);
    assert Exp2(27) == 2 * (2 * (2 * Exp2(24)));
    PutTargets(Exp2(27));
  }
}
