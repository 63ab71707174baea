/** The Internet checksum of in_cksum.c on a little-endian host, against the one's complement sum of RFC 1071. */
module Checksum {

  type byte = x: nat | x < 256
  type U16 = x: nat | x < 0x1_0000

  // ----- one's complement arithmetic

  /** The one's complement value of a sum: its residue modulo 65535, with 65535 for every non-zero multiple. */
  function Ones(sum: nat): U16 {
    if sum == 0 then 0 else (sum - 1) % 65535 + 1
  }

  lemma OnesUnique(sum: nat, k: int, r: nat)
    requires sum == k * 65535 + r && 0 < r <= 65535 && sum > 0
    ensures Ones(sum) == r
  {
  }

  lemma OnesParts(sum: nat) returns (k: nat)
    ensures sum == k * 65535 + Ones(sum) && (sum > 0 <==> Ones(sum) > 0)
  {
    k := if sum == 0 then 0 else (sum - 1) / 65535;
  }

  /** `csum_oc16_reduce`: fold the carries back in until 16 bits are left, then complement. */
  method Reduce(sum0: nat) returns (r: U16)
    requires sum0 < 0x1_0000_0000
    ensures r == 0xFFFF - Ones(sum0)
  {
    var sum := sum0;
    while sum / 0x1_0000 != 0
      invariant Ones(sum) == Ones(sum0)
      decreases sum
    {
      FoldKeepsOnes(sum);
      sum := sum % 0x1_0000 + sum / 0x1_0000;
    }
    r := 0xFFFF - sum;
  }

  lemma FoldKeepsOnes(sum: nat)
    requires sum >= 0x1_0000
    ensures Ones(sum % 0x1_0000 + sum / 0x1_0000) == Ones(sum)
    ensures sum % 0x1_0000 + sum / 0x1_0000 < sum
  {
    var hi, lo := sum / 0x1_0000, sum % 0x1_0000;
    var k := OnesParts(lo + hi);
    OnesUnique(sum, k + hi, Ones(lo + hi));
  }

  // ----- sums of words

  /** The 16-bit word with this low and this high byte. */
  function Word(lo: byte, hi: byte): U16 {
    var l: nat, h: nat := lo, hi;
    l + 256 * h
  }

  /** The sum of the little-endian 16-bit words of d; an odd last byte counts as it is. */
  function LeSum(d: seq<byte>): nat {
    if |d| == 0 then 0
    else if |d| == 1 then d[0]
    else Word(d[0], d[1]) + LeSum(d[2..])
  }

  /** The sum of the big-endian 16-bit words of d; an odd last byte is padded with a zero byte on the right. */
  function BeSum(d: seq<byte>): nat {
    if |d| == 0 then 0
    else if |d| == 1 then Word(0, d[0])
    else Word(d[1], d[0]) + BeSum(d[2..])
  }

  lemma {:induction false} LeSumBound(d: seq<byte>)
    ensures 2 * LeSum(d) <= 65535 * (|d| + 1)
    ensures LeSum(d) == 0 <==> forall i :: 0 <= i < |d| ==> d[i] == 0
    ensures LeSum(d) == 0 <==> BeSum(d) == 0
  {
    if |d| >= 2 {
      LeSumBound(d[2..]);
      assert forall i :: 2 <= i < |d| ==> d[i] == d[2..][i - 2];
    }
  }

  /** A value kept in 32 bits, and the addition of 32-bit words. */
  function Low32(x: nat): nat {
    x % 0x1_0000_0000
  }

  function Add32(a: nat, b: nat): nat {
    Low32(a + b)
  }

  lemma AddWraps(total: nat, word: nat)
    ensures Add32(Low32(total), word) == Low32(total + word) == Add32(Low32(total), Low32(word))
  {
    var q, p := total / 0x1_0000_0000, word / 0x1_0000_0000;
    Low32Shift(Low32(total) + word, q);
    Low32Shift(Low32(total) + Low32(word), q + p);
  }

  lemma Low32Shift(x: nat, q: nat)
    ensures Low32(x + q * 0x1_0000_0000) == Low32(x)
  {
  }

  /** `csum_oc16`: a 32-bit accumulator over the words, which wraps. */
  method SumWords(data: seq<byte>) returns (sum: nat)
    ensures sum == Low32(LeSum(data))
  {
    hide Low32, Add32, Word;
    ghost var total: nat := 0;
    sum := 0;
    ZeroLow32();
    var n, half := 0, |data| / 2;
    while n < half
      invariant n <= half
      invariant total + LeSum(data[2 * n..]) == LeSum(data) && sum == Low32(total)
    {
      assert data[2 * n..][2..] == data[2 * (n + 1)..];
      var word := Word(data[2 * n], data[2 * n + 1]);
      AddWraps(total, word);
      total := total + word;
      sum := Add32(sum, word);
      n := n + 1;
    }
    if |data| % 2 == 1 {
      var last: nat := data[|data| - 1];
      assert data[2 * n..] == [data[|data| - 1]];
      AddWraps(total, last);
      sum := Add32(sum, last);
    }
  }

  lemma ZeroLow32()
    ensures Low32(0) == 0
  {
  }

  // ----- the checksum of a block

  /** The value `ip_cksum` computes: the complement of the one's complement sum of the little-endian words. */
  function Cksum(d: seq<byte>): U16 {
    0xFFFF - Ones(LeSum(d))
  }

  /** `ip_cksum` takes a 16-bit length, and then the accumulator never wraps. */
  method IpCksum(buf: seq<byte>) returns (r: U16)
    requires |buf| < 0x1_0000
    ensures r == Cksum(buf)
  {
    LeSumBound(buf);
    var sum := SumWords(buf);
    r := Reduce(sum);
  }

  // ----- RFC 1071

  /** One's complement addition of 16-bit words: the carry out of the top is added back at the bottom. */
  function AddOnes(a: U16, b: U16): U16 {
    if a + b > 0xFFFF then a + b - 0xFFFF else a + b
  }

  /** The checksum of RFC 1071: complement of the one's complement sum of the big-endian words, the last one padded. */
  function Rfc1071Sum(d: seq<byte>): U16 {
    if |d| == 0 then 0
    else if |d| == 1 then Word(0, d[0])
    else AddOnes(Word(d[1], d[0]), Rfc1071Sum(d[2..]))
  }

  function ByteSwap(x: U16): U16 {
    x % 256 * 256 + x / 256
  }

  lemma AddOnesIsOnes(a: U16, sum: nat)
    ensures AddOnes(a, Ones(sum)) == Ones(a + sum)
  {
    var k := OnesParts(sum);
    if a + sum > 0 {
      if a + Ones(sum) > 0xFFFF {
        OnesUnique(a + sum, k + 1, a + Ones(sum) - 0xFFFF);
      } else {
        OnesUnique(a + sum, k, a + Ones(sum));
      }
    }
  }

  /** Adding with end-around carry word by word is the same as summing first and folding afterwards. */
  lemma {:induction false} Rfc1071SumIsOnes(d: seq<byte>)
    ensures Rfc1071Sum(d) == Ones(BeSum(d))
  {
    if |d| >= 2 {
      Rfc1071SumIsOnes(d[2..]);
      AddOnesIsOnes(Word(d[1], d[0]), BeSum(d[2..]));
    }
  }

  /** 256 times the little-endian sum is the big-endian sum up to a multiple of 65535. */
  lemma {:induction false} SumsAgree(d: seq<byte>) returns (k: nat)
    ensures 256 * LeSum(d) == BeSum(d) + k * 65535
  {
    if |d| < 2 {
      k := 0;
    } else {
      k := SumsAgree(d[2..]);
      k := k + d[1];
    }
  }

  lemma SwapIsTimes256(x: U16)
    ensures 256 * x == ByteSwap(x) + x / 256 * 65535
    ensures ByteSwap(x) == 0 <==> x == 0
    ensures ByteSwap(0xFFFF - x) == 0xFFFF - ByteSwap(x)
  {
  }

  /** Byte-order independence (RFC 1071, section 2 (B)): for every block, of odd length too, the checksum taken from
      little-endian words and byte-swapped is the checksum taken from big-endian words. */
  lemma ByteOrderIndependent(d: seq<byte>)
    ensures ByteSwap(Cksum(d)) == 0xFFFF - Rfc1071Sum(d)
  {
    Rfc1071SumIsOnes(d);
    LeSumBound(d);
    var x := Ones(LeSum(d));
    SwapIsTimes256(x);
    var j := OnesParts(LeSum(d));
    var k := SumsAgree(d);
    if BeSum(d) > 0 {
      OnesUnique(BeSum(d), 256 * j + x / 256 - k, ByteSwap(x));
    }
  }

  // ----- writing the checksum and verifying it

  function Lo(x: U16): byte {
    x % 256
  }

  function Hi(x: U16): byte {
    x / 256
  }

  /** A 16-bit store at offset i on a little-endian host. */
  function Store16(d: seq<byte>, i: nat, x: U16): (r: seq<byte>)
    requires i + 2 <= |d|
    ensures |r| == |d|
  {
    d[i := Lo(x)][i + 1 := Hi(x)]
  }

  /** Replacing an aligned word changes the sum by exactly the difference. */
  lemma {:induction false} StoreChangesSum(d: seq<byte>, i: nat, x: U16)
    requires i % 2 == 0 && i + 2 <= |d|
    ensures LeSum(Store16(d, i, x)) == LeSum(d) - Word(d[i], d[i + 1]) + x
  {
    if i == 0 {
      assert Store16(d, i, x)[2..] == d[2..];
    } else {
      assert Store16(d, i, x)[2..] == Store16(d[2..], i - 2, x);
      StoreChangesSum(d[2..], i - 2, x);
    }
  }

  /** A sum plus the complement of its one's complement value folds to all ones. */
  lemma ComplementFolds(sum: nat)
    ensures Ones(sum + 0xFFFF - Ones(sum)) == 0xFFFF
  {
    var k := OnesParts(sum);
    OnesUnique(sum + 0xFFFF - Ones(sum), k, 0xFFFF);
  }

  /** Writing the checksum into its zeroed, aligned field makes the block verify: the checksum is then 0. */
  lemma WrittenVerifies(d: seq<byte>, i: nat)
    requires i % 2 == 0 && i + 2 <= |d| && d[i] == 0 && d[i + 1] == 0
    ensures Cksum(Store16(d, i, Cksum(d))) == 0
  {
    StoreChangesSum(d, i, Cksum(d));
    ComplementFolds(LeSum(d));
  }

  lemma OnesFull(sum: nat)
    requires sum > 0
    ensures Ones(sum) == 0xFFFF <==> sum % 65535 == 0
  {
    var k := OnesParts(sum);
  }

  /** What the checksum detects: a block that verifies still does after one of its words is replaced exactly when
      the new word is congruent to the old one modulo 65535, that is, the same or the other form of zero, and not
      all is zero. */
  lemma ChangeDetected(d: seq<byte>, i: nat, x: U16)
    requires i % 2 == 0 && i + 2 <= |d| && Cksum(d) == 0
    ensures Cksum(Store16(d, i, x)) == 0 <==> (x - Word(d[i], d[i + 1])) % 65535 == 0 && LeSum(Store16(d, i, x)) > 0
  {
    hide LeSum, Ones, Word;
    var sum, sum' := LeSum(d), LeSum(Store16(d, i, x));
    StoreChangesSum(d, i, x);
    OnesOfSum(sum);
    OnesFull(sum);
    OnesOfSum(sum');
    if sum' > 0 {
      OnesFull(sum');
      SumDifference(sum, sum', x - Word(d[i], d[i + 1]));
    }
  }

  lemma SumDifference(sum: int, sum': int, e: int)
    requires sum' == sum + e && sum % 65535 == 0
    ensures sum' % 65535 == 0 <==> e % 65535 == 0
  {
    var q := sum / 65535;
    assert sum == q * 65535;
    if e % 65535 == 0 {
      var k := e / 65535;
      assert sum' == (q + k) * 65535;
    }
    if sum' % 65535 == 0 {
      var k := sum' / 65535;
      assert e == (k - q) * 65535;
    }
  }

  // ----- incremental update (RFC 1624)

  /** `ip_cksum_update32`, old_check and old_data complemented, all five halves added. */
  method Update32(oldCheck: U16, oldData: nat, newData: nat) returns (r: U16)
    requires oldData < 0x1_0000_0000 && newData < 0x1_0000_0000
    ensures r == Updated32(oldCheck, oldData, newData)
  {
    hide Ones;
    ComplementHalves(oldData);
    var check := 0xFFFF - oldCheck;
    var data: nat := 0xFFFF_FFFF - oldData;
    var l := check + data / 0x1_0000 + data % 0x1_0000 + newData / 0x1_0000 + newData % 0x1_0000;
    r := Reduce(l);
  }

  lemma ComplementHalves(x: nat)
    requires x < 0x1_0000_0000
    ensures (0xFFFF_FFFF - x) / 0x1_0000 == 0xFFFF - x / 0x1_0000
    ensures (0xFFFF_FFFF - x) % 0x1_0000 == 0xFFFF - x % 0x1_0000
  {
  }

  /** The checksum after replacing the halves of a 32-bit word: Eqn. 3 of RFC 1624, section 3. */
  function Updated32(oldCheck: U16, oldData: nat, newData: nat): U16
    requires oldData < 0x1_0000_0000 && newData < 0x1_0000_0000
  {
    0xFFFF - Ones((0xFFFF - oldCheck) + (0xFFFF - oldData / 0x1_0000) + (0xFFFF - oldData % 0x1_0000)
                  + newData / 0x1_0000 + newData % 0x1_0000)
  }

  function Load32(d: seq<byte>, i: nat): nat
    requires i + 4 <= |d|
  {
    Word(d[i], d[i + 1]) + 0x1_0000 * Word(d[i + 2], d[i + 3])
  }

  function Store32(d: seq<byte>, i: nat, x: nat): (r: seq<byte>)
    requires i + 4 <= |d| && x < 0x1_0000_0000
    ensures |r| == |d|
  {
    Store16(Store16(d, i, x % 0x1_0000), i + 2, x / 0x1_0000)
  }

  /** The arithmetic of the update: sum minus two old halves plus two new ones, all as one's complement values. */
  lemma UpdateArithmetic(sum: nat, lo: U16, hi: U16, newLo: U16, newHi: U16)
    requires lo + hi <= sum
    ensures var l := Ones(sum) + (0xFFFF - hi) + (0xFFFF - lo) + newHi + newLo;
            var sum' := sum - lo - hi + newLo + newHi;
            Ones(l) == if sum' == 0 then 0xFFFF else Ones(sum')
  {
    var l := Ones(sum) + (0xFFFF - hi) + (0xFFFF - lo) + newHi + newLo;
    var sum' := sum - lo - hi + newLo + newHi;
    var j := OnesParts(sum);
    var k := OnesParts(sum');
    assert l == sum' + (2 - j) * 65535;
    if sum' > 0 {
      OnesUnique(l, k + 2 - j, Ones(sum'));
    } else {
      OnesUnique(l, 1 - j, 0xFFFF);
    }
  }

  /** The incremental update equals full recomputation exactly when the updated block is not all zero. */
  lemma Update32Exact(d: seq<byte>, i: nat, x: nat)
    requires i % 2 == 0 && i + 4 <= |d| && x < 0x1_0000_0000
    ensures Load32(d, i) < 0x1_0000_0000
    ensures var d' := Store32(d, i, x);
            Updated32(Cksum(d), Load32(d, i), x) == Cksum(d') <==> exists j :: 0 <= j < |d'| && d'[j] != 0
  {
    hide Ones, LeSum, Word, Load32, Store32;
    var d' := Store32(d, i, x);
    LoadHalves(d, i);
    StoreChangesSum32(d, i, x);
    UpdateArithmetic(LeSum(d), Load32(d, i) % 0x1_0000, Load32(d, i) / 0x1_0000, x % 0x1_0000, x / 0x1_0000);
    LeSumBound(d');
    OnesOfSum(LeSum(d'));
  }

  lemma LoadHalves(d: seq<byte>, i: nat)
    requires i + 4 <= |d|
    ensures Load32(d, i) < 0x1_0000_0000
    ensures Load32(d, i) % 0x1_0000 == Word(d[i], d[i + 1]) && Load32(d, i) / 0x1_0000 == Word(d[i + 2], d[i + 3])
  {
    hide Word;
  }

  lemma StoreChangesSum32(d: seq<byte>, i: nat, x: nat)
    requires i % 2 == 0 && i + 4 <= |d| && x < 0x1_0000_0000
    ensures var lo: nat, hi: nat := Word(d[i], d[i + 1]), Word(d[i + 2], d[i + 3]);
            && lo + hi <= LeSum(d)
            && LeSum(Store32(d, i, x)) == LeSum(d) - lo - hi + x % 0x1_0000 + x / 0x1_0000
  {
    hide LeSum, Word;
    StoreChangesSum(d, i, x % 0x1_0000);
    StoreChangesSum(Store16(d, i, x % 0x1_0000), i + 2, x / 0x1_0000);
    StoreChangesSum(d, i, 0);
    StoreChangesSum(Store16(d, i, 0), i + 2, 0);
  }

  lemma OnesOfSum(sum: nat)
    ensures Ones(sum) == 0 <==> sum == 0
    ensures Ones(0) == 0
  {
  }

  /** `ip_cksum_update16` as written: the old data is complemented twice, the second time as a 32-bit integer. */
  method Update16(oldCheck: U16, oldData: U16, newData: U16) returns (r: U16)
    ensures r == Updated16(oldCheck, oldData, newData)
  {
    var check := 0xFFFF - oldCheck;
    var data := 0xFFFF - oldData;
    var l: int := check + (-1 - data) + newData;
    r := Reduce(l % 0x1_0000_0000);
  }

  function Updated16(oldCheck: U16, oldData: U16, newData: U16): U16 {
    0xFFFF - Ones(((0xFFFF - oldCheck) + oldData - 0x1_0000 + newData) % 0x1_0000_0000)
  }

  /** Two non-zero sums have the same one's complement value exactly when they differ by a multiple of 65535. */
  lemma SameOnes(x: nat, y: nat, k: int, e: nat)
    requires x > 0 && y > 0 && x == y + e + k * 65535 && e < 65535
    ensures Ones(x) == Ones(y) <==> e == 0
  {
    var i: int := OnesParts(x);
    var j: int := OnesParts(y);
    assert Ones(x) - Ones(y) == e + (k - i + j) * 65535;
  }

  lemma Update16Negative(sum: nat, old_: U16, new_: U16)
    requires old_ <= sum && Ones(sum) + old_ + new_ < 0x1_0000
    ensures Ones(Ones(sum) + old_ + new_ + 0xFFFF_0000) == Ones(sum - old_ + new_) <==> old_ == 0 && sum + new_ > 0
  {
    var l, sum' := Ones(sum) + old_ + new_ + 0xFFFF_0000, sum - old_ + new_;
    var j: int := OnesParts(sum);
    assert l - sum' == 2 * old_ + (65536 - j) * 65535;
    if sum' == 0 {
      OnesOfSum(l);
    } else if old_ < 0x8000 {
      SameOnes(l, sum', 65536 - j, 2 * old_);
    } else {
      SameOnes(l, sum', 65537 - j, 2 * old_ - 65535);
    }
  }

  lemma Update16Positive(sum: nat, old_: U16, new_: U16)
    requires old_ <= sum && Ones(sum) + old_ + new_ >= 0x1_0000
    ensures Ones(Ones(sum) + old_ + new_ - 0x1_0000) == Ones(sum - old_ + new_) <==>
            old_ == 0x8000 && (Ones(sum) + new_ == 0x8000 ==> sum - old_ + new_ == 0)
  {
    var l, sum' := Ones(sum) + old_ + new_ - 0x1_0000, sum - old_ + new_;
    var j: int := OnesParts(sum);
    assert l - sum' == 2 * old_ - 1 - (j + 1) * 65535;
    OnesOfSum(l);
    OnesOfSum(sum');
    if l > 0 && sum' > 0 {
      if old_ == 0 {
        SameOnes(l, sum', -2 - j, 65534);
      } else if old_ < 0x8000 {
        SameOnes(l, sum', -1 - j, 2 * old_ - 1);
      } else {
        SameOnes(l, sum', -j, 2 * old_ - 1 - 65535);
      }
    }
  }

  lemma Update16Arithmetic(sum: nat, old_: U16, new_: U16)
    requires old_ <= sum
    ensures var a, sum' := Ones(sum), sum - old_ + new_;
            Ones((a + old_ - 0x1_0000 + new_) % 0x1_0000_0000) == Ones(sum') <==>
            if a + old_ + new_ < 0x1_0000 then old_ == 0 && sum' > 0
            else old_ == 0x8000 && (a + new_ == 0x8000 ==> sum' == 0)
  {
    hide Ones;
    if Ones(sum) + old_ + new_ < 0x1_0000 {
      Update16Negative(sum, old_, new_);
    } else {
      Update16Positive(sum, old_, new_);
    }
  }

  /** The 16-bit update is wrong for almost every old word. It equals recomputation exactly when the addition stayed
      negative, the old word is 0 and the new block is not all zero, or when it did not, the old word is 0x8000, and the
      result is not a zero that stands for a non-zero block. */
  lemma Update16Exact(d: seq<byte>, i: nat, x: U16)
    requires i % 2 == 0 && i + 2 <= |d|
    ensures var old_, d' := Word(d[i], d[i + 1]), Store16(d, i, x);
            var a := 0xFFFF - Cksum(d);
            Updated16(Cksum(d), old_, x) == Cksum(d') <==>
            if a + old_ + x < 0x1_0000 then old_ == 0 && LeSum(d') > 0
            else old_ == 0x8000 && (a + x == 0x8000 ==> LeSum(d') == 0)
  {
    hide Ones, LeSum;
    StoreChangesSum(d, i, x);
    StoreChangesSum(d, i, 0);
    Update16Arithmetic(LeSum(d), Word(d[i], d[i + 1]), x);
  }

  /** A two-byte block holding 1 that is changed to 2: the update answers 0xFFFB, recomputation 0xFFFD. */
  lemma Update16Fails()
    ensures Updated16(Cksum([1, 0]), 1, 2) != Cksum(Store16([1, 0], 0, 2))
  {
    Update16Exact([1, 0], 0, 2);
  }

  // ----- blocks made of parts

  lemma {:induction false} SumOfParts(a: seq<byte>, b: seq<byte>)
    requires |a| % 2 == 0
    ensures LeSum(a + b) == LeSum(a) + LeSum(b)
  {
    if |a| == 0 {
      assert a + b == b;
    } else {
      assert (a + b)[2..] == a[2..] + b;
      SumOfParts(a[2..], b);
    }
  }

  lemma SumOfPair(x: byte, y: byte)
    ensures LeSum([x, y]) == Word(x, y)
  {
    assert [x, y][2..] == [];
  }
}
