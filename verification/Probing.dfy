/** Triangular probing over a power-of-two table: the arithmetic under every probe loop of khash. */
module Probing {

  ghost predicate IsPow2(n: nat) {
    n == 1 || (n > 1 && n % 2 == 0 && IsPow2(n / 2))
  }

  /** The sum 1 + 2 + ... + s, which is the distance travelled after s probe steps. */
  function Tri(s: nat): nat {
    if s == 0 then 0 else Tri(s - 1) + s
  }

  /** The bucket inspected after s steps when the hash is h and the table has n buckets. */
  function Probe(h: nat, s: nat, n: nat): (i: nat)
    requires n > 0
    ensures i < n
  {
    (h + Tri(s)) % n
  }

  lemma MulAtLeast(k: int, n: nat)
    ensures k >= 1 ==> k * n >= n
    ensures k <= -1 ==> k * n + n <= 0
  {
    if k >= 1 {
      assert k * n == (k - 1) * n + n;
    } else if k <= -1 {
      assert k * n == (k + 1) * n - n;
    }
  }

  lemma ModUnique(x: int, n: nat, q: int, r: nat)
    requires n > 0 && r < n && x == q * n + r
    ensures x % n == r && x / n == q
  {
    var d := x / n - q;
    assert d * n == r - x % n by {
      assert x == (x / n) * n + x % n;
      assert d * n == (x / n) * n - q * n;
    }
    MulAtLeast(d, n);
  }

  lemma ModOfSum(a: nat, b: nat, n: nat)
    requires n > 0
    ensures (a % n + b) % n == (a + b) % n
  {
    var p, q := a / n, (a % n + b) / n;
    assert a == p * n + a % n;
    assert a % n + b == q * n + (a % n + b) % n;
    assert (p + q) * n == p * n + q * n;
    ModUnique(a + b, n, p + q, (a % n + b) % n);
  }

  /** Equal remainders differ by a multiple of the modulus. */
  lemma SameRemainder(a: nat, b: nat, n: nat)
    requires n > 0 && a <= b && a % n == b % n
    ensures (b - a) % n == 0
  {
    assert b - a == (b / n - a / n) * n + 0;
    ModUnique(b - a, n, b / n - a / n, 0);
  }

  /** One iteration of the probe loop moves from step s to step s + 1. */
  lemma ProbeStep(h: nat, s: nat, n: nat)
    requires n > 0
    ensures Probe(h, s + 1, n) == (Probe(h, s, n) + (s + 1)) % n
  {
    var d := h + Tri(s);
    assert h + Tri(s + 1) == d + (s + 1);
    ModOfSum(d, s + 1, n);
  }

  lemma {:induction false} TwiceTri(s: nat)
    ensures 2 * Tri(s) == s * (s + 1)
  {
    if s > 0 {
      TwiceTri(s - 1);
    }
  }

  lemma Quotient(x: nat, n: nat) returns (k: nat)
    requires n > 0 && x % n == 0
    ensures x == k * n
  {
    k := x / n;
  }

  lemma MultipleOf(x: nat, n: nat, k: int)
    requires n > 0 && x == k * n
    ensures x % n == 0
  {
    ModUnique(x, n, k, 0);
  }

  lemma OddTimes(a: nat, b: nat, c: nat)
    requires a % 2 == 1 && a * b == 2 * c
    ensures b % 2 == 0 && a * (b / 2) == c
  {
    var d := a / 2;
    var e := c - d * b;
    assert a * b == (2 * d + 1) * b == 2 * (d * b) + b;
    assert b == 2 * e;
    assert a * e == (2 * d + 1) * e == d * b + e;
  }

  /** A power of two that divides a product with one odd factor divides the other factor. */
  lemma {:induction false} OddFactor(n: nat, a: nat, b: nat)
    requires IsPow2(n) && a % 2 == 1 && (a * b) % n == 0
    ensures b % n == 0
  {
    if n > 1 {
      var m := n / 2;
      var k := Quotient(a * b, n);
      assert k * n == 2 * (k * m);
      OddTimes(a, b, k * m);
      MultipleOf(a * (b / 2), m, k);
      OddFactor(m, a, b / 2);
      var j := Quotient(b / 2, m);
      assert j * n == 2 * (j * m);
      MultipleOf(b, n, j);
    }
  }

  /** Two probe steps that meet: twice the table size divides (t - s) * (t + s + 1). */
  lemma MeetingSteps(h: nat, s: nat, t: nat, n: nat)
    requires n > 0 && s <= t && Probe(h, s, n) == Probe(h, t, n)
    ensures ((t - s) * (t + s + 1)) % (2 * n) == 0
  {
    TriMonotone(s, t);
    SameRemainder(h + Tri(s), h + Tri(t), n);
    var d := Tri(t) - Tri(s);
    assert (h + Tri(t)) - (h + Tri(s)) == d;
    assert (t - s) * (t + s + 1) == 2 * d by {
      TwiceTri(s);
      TwiceTri(t);
    }
    EvenMultiple(d, n);
  }

  lemma EvenMultiple(d: nat, n: nat)
    requires n > 0 && d % n == 0
    ensures (2 * d) % (2 * n) == 0
  {
    var k := Quotient(d, n);
    assert 2 * d == k * (2 * n);
    MultipleOf(2 * d, 2 * n, k);
  }

  lemma {:induction false} TriMonotone(s: nat, t: nat)
    requires s <= t
    ensures Tri(s) <= Tri(t)
    decreases t
  {
    if s < t {
      TriMonotone(s, t - 1);
    }
  }

  lemma Pow2Double(n: nat)
    requires IsPow2(n)
    ensures IsPow2(2 * n)
  {
    assert (2 * n) / 2 == n;
  }

  /** Whichever of the two factors is odd, the other one carries the whole power of two. */
  lemma OneOdd(a: nat, b: nat, m: nat)
    requires IsPow2(m) && (a + b) % 2 == 1 && (a * b) % m == 0
    ensures a % m == 0 || b % m == 0
  {
    hide IsPow2;
    if a % 2 == 1 {
      OddFactor(m, a, b);
    } else {
      assert b * a == a * b;
      OddFactor(m, b, a);
    }
  }

  lemma MeetingFactor(s: nat, t: nat, n: nat)
    requires IsPow2(n) && s <= t && ((t - s) * (t + s + 1)) % (2 * n) == 0
    ensures (t - s) % (2 * n) == 0 || (t + s + 1) % (2 * n) == 0
  {
    hide IsPow2;
    Pow2Double(n);
    var a, b := t - s, t + s + 1;
    assert a + b == 2 * t + 1;
    OneOdd(a, b, 2 * n);
  }

  /** The first n probes hit n different buckets. */
  lemma ProbesDistinct(h: nat, s: nat, t: nat, n: nat)
    requires IsPow2(n) && s < t < n
    ensures Probe(h, s, n) != Probe(h, t, n)
  {
    if Probe(h, s, n) == Probe(h, t, n) {
      MeetingSteps(h, s, t, n);
      MeetingFactor(s, t, n);
      SmallNotMultiple(t - s, 2 * n);
      SmallNotMultiple(t + s + 1, 2 * n);
    }
  }

  lemma SmallNotMultiple(x: nat, m: nat)
    requires 0 < x < m
    ensures x % m != 0
  {
  }

  lemma NoEarlyReturn(h: nat, s: nat, n: nat)
    requires IsPow2(n) && 0 < s < 2 * n - 1
    ensures Probe(h, s, n) != Probe(h, 0, n)
  {
    if Probe(h, s, n) == Probe(h, 0, n) {
      MeetingSteps(h, 0, s, n);
      MeetingFactor(0, s, n);
      SmallNotMultiple(s, 2 * n);
      SmallNotMultiple(s + 1, 2 * n);
    }
  }

  lemma ReturnsAtEnd(h: nat, n: nat)
    requires n > 0
    ensures Probe(h, 2 * n - 1, n) == Probe(h, 0, n)
  {
    var s := 2 * n - 1;
    assert Tri(s) == s * n by {
      TwiceTri(s);
      assert s * (s + 1) == 2 * (s * n);
    }
    var q := h / n;
    assert h == q * n + h % n;
    assert (q + s) * n == q * n + s * n;
    ModUnique(h + Tri(s), n, q + s, h % n);
  }

  /** The walk first comes back to its starting bucket at step 2n - 1: this is when `i == last`. */
  lemma FirstReturn(h: nat, s: nat, n: nat)
    requires IsPow2(n) && 0 < s < 2 * n
    ensures Probe(h, s, n) == Probe(h, 0, n) <==> s == 2 * n - 1
  {
    if s == 2 * n - 1 {
      ReturnsAtEnd(h, n);
    } else {
      NoEarlyReturn(h, s, n);
    }
  }

  /** The buckets inspected in the first k probes. */
  ghost function Visited(h: nat, k: nat, n: nat): set<nat>
    requires n > 0
  {
    set s | 0 <= s < k :: Probe(h, s, n)
  }

  lemma {:induction false} VisitedCount(h: nat, k: nat, n: nat)
    requires IsPow2(n) && k <= n
    ensures |Visited(h, k, n)| == k
  {
    if k > 0 {
      VisitedCount(h, k - 1, n);
      var p := Probe(h, k - 1, n);
      assert Visited(h, k, n) == Visited(h, k - 1, n) + {p};
      if p in Visited(h, k - 1, n) {
        var s :| 0 <= s < k - 1 && Probe(h, s, n) == p;
        ProbesDistinct(h, s, k - 1, n);
      }
    }
  }

  ghost function Below(n: nat): (r: set<nat>)
    ensures forall i: nat :: i in r <==> i < n
    ensures |r| == n
  {
    if n == 0 then {} else Below(n - 1) + {n - 1}
  }

  lemma SubsetOfSameSize<T>(a: set<T>, b: set<T>)
    requires a <= b && |a| == |b|
    ensures a == b
  {
    assert |b - a| == 0;
  }

  /** Coverage: every bucket is inspected within the first n probes. */
  lemma Coverage(h: nat, i: nat, n: nat) returns (s: nat)
    requires IsPow2(n) && i < n
    ensures s < n && Probe(h, s, n) == i
  {
    VisitedCount(h, n, n);
    SubsetOfSameSize(Visited(h, n, n), Below(n));
    assert i in Below(n);
    s :| 0 <= s < n && Probe(h, s, n) == i;
  }
}
