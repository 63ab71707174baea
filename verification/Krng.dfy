/**
 * The random number generator of krng.h: two 64-bit words stepped by rotations, shifts and exclusive or, and
 * seeded through splitmix64. Words are `bv64`, so sums and products wrap as the source's do.
 */
module Krng {

  datatype State = State(s0: bv64, s1: bv64)

  const ONES: bv64 := 0xFFFF_FFFF_FFFF_FFFF

  /** The first word after a step. */
  function First(s0: bv64, s1: bv64): bv64 {
    var x := s1 ^ s0;
    ((s0 << 55) | (s0 >> 9)) ^ x ^ (x << 14)
  }

  /** The second word after a step. */
  function Second(s0: bv64): bv64 { (s0 << 36) | (s0 >> 28) }

  /** One step of the generator. */
  function Step(s: State): State { State(First(s.s0, s.s1), Second(s.s0)) }

  /** The number that a state gives. */
  function Output(s: State): bv64 { Sum(s.s0, s.s1) }

  function Sum(a: bv64, b: bv64): bv64 { a + b }

  // ---- The step is a bijection ----
  // A predicate below names one equation on words. It is proved of the expression that a function computes and
  // passed on by name, which spares the solver equations between words that it only knows to be equal.

  /** The first word before a step, from the second word after it. */
  function Back0(t1: bv64): bv64 { (t1 << 28) | (t1 >> 36) }

  /** The second word before a step, from the first words before and after it. */
  function Back1(s0: bv64, t0: bv64): bv64 {
    var y := t0 ^ ((s0 << 55) | (s0 >> 9));
    s0 ^ y ^ (y << 14) ^ (y << 28) ^ (y << 42) ^ (y << 56)
  }

  function Unstep(t: State): State { State(Back0(t.s1), Back1(Back0(t.s1), t.s0)) }

  predicate Back0Is(t1: bv64, s0: bv64) { Back0(t1) == s0 }

  predicate Back1Is(s0: bv64, t0: bv64, s1: bv64) { Back1(s0, t0) == s1 }

  predicate FirstIs(s0: bv64, s1: bv64, t0: bv64) { First(s0, s1) == t0 }

  predicate SecondIs(s0: bv64, t1: bv64) { Second(s0) == t1 }

  lemma BackWords(s0: bv64, s1: bv64)
    ensures Back0Is((s0 << 36) | (s0 >> 28), s0)
    ensures var x := s1 ^ s0; Back1Is(s0, ((s0 << 55) | (s0 >> 9)) ^ x ^ (x << 14), s1)
  {}

  lemma ForthWords(t0: bv64, t1: bv64, s0: bv64)
    ensures SecondIs((t1 << 28) | (t1 >> 36), t1)
    ensures var y := t0 ^ ((s0 << 55) | (s0 >> 9));
      FirstIs(s0, s0 ^ y ^ (y << 14) ^ (y << 28) ^ (y << 42) ^ (y << 56), t0)
  {}

  lemma BackNames(s0: bv64, s1: bv64)
    ensures Back0Is(Second(s0), s0) && Back1Is(s0, First(s0, s1), s1)
  {
    hide Back0Is, Back1Is;
    BackWords(s0, s1);
  }

  lemma ForthNames(t0: bv64, t1: bv64, s0: bv64)
    ensures SecondIs(Back0(t1), t1) && FirstIs(s0, Back1(s0, t0), t0)
  {
    hide SecondIs, FirstIs;
    ForthWords(t0, t1, s0);
  }

  /** No two states have the same successor: a step can be undone. */
  lemma StepUndone(s: State)
    ensures Unstep(Step(s)) == s
  {
    hide First, Second, Back0, Back1;
    BackNames(s.s0, s.s1);
  }

  /** Every state has a predecessor: the undoing can be redone. */
  lemma UnstepUndone(t: State)
    ensures Step(Unstep(t)) == t
  {
    hide First, Second, Back0, Back1;
    ForthNames(t.s0, t.s1, Back0(t.s1));
  }

  // ---- The step and the output in other words ----

  predicate IsSum(r: bv64, a: bv64, b: bv64) { r == a + b }

  lemma SumWords(a: bv64, b: bv64)
    ensures IsSum(a + b, a, b)
  {}

  lemma SumIs(a: bv64, b: bv64)
    ensures IsSum(Sum(a, b), a, b)
  {
    hide IsSum;
    SumWords(a, b);
  }

  lemma RotateWords(s0: bv64, s1: bv64)
    ensures SecondIs(s0, s0.RotateLeft(36))
    ensures var x := s1 ^ s0; FirstIs(s0, s1, s0.RotateLeft(55) ^ x ^ (x << 14))
  {}

  /** The first word of the next state is rotated by 55 bits and mixed, the second is the first rotated by 36. */
  lemma StepRotates(s: State)
    ensures FirstIs(s.s0, s.s1, s.s0.RotateLeft(55) ^ (s.s1 ^ s.s0) ^ ((s.s1 ^ s.s0) << 14))
    ensures Step(s).s1 == s.s0.RotateLeft(36)
  {
    hide First, Second, FirstIs;
    RotateWords(s.s0, s.s1);
  }

  // ---- Its fixed points ----

  /** What a step changes in the first word of a state whose second word stays. */
  function Change(s: bv64): bv64 {
    s ^ ((s << 55) | (s >> 9)) ^ (((s << 36) | (s >> 28)) ^ s) ^ ((((s << 36) | (s >> 28)) ^ s) << 14)
  }

  predicate ChangeIs(s: bv64, t: bv64) { Change(s) == s ^ t }

  lemma ChangeWords(s: bv64)
    ensures var x := ((s << 36) | (s >> 28)) ^ s; ChangeIs(s, ((s << 55) | (s >> 9)) ^ x ^ (x << 14))
  {}

  lemma ChangeFirst(s: bv64)
    ensures ChangeIs(s, First(s, (s << 36) | (s >> 28)))
  {
    hide ChangeIs;
    ChangeWords(s);
  }

  lemma ChangeNames(s: bv64)
    ensures ChangeIs(s, First(s, Second(s)))
  {
    hide ChangeIs, First;
    ChangeFirst(s);
  }

  lemma ChangeLow(s: bv64)
    ensures Change(s) & 0x3FFF == ((s >> 9) ^ (s >> 28)) & 0x3FFF
  {}

  lemma ChangeMiddle(s: bv64)
    ensures (Change(s) >> 14) & 0x3F_FFFF == ((s >> 42) ^ s ^ (s >> 23) ^ (s >> 28)) & 0x3F_FFFF
  {}

  lemma ChangeHigh(s: bv64)
    ensures Change(s) >> 36 == (s ^ (s >> 22) ^ ((s >> 50) | (s << 14)) ^ ((s >> 45) | (s << 19))) & 0xFFF_FFFF
  {}

  /** The three bit ranges of `Change` vanish. */
  predicate Still(s: bv64) {
    && ((s >> 9) ^ (s >> 28)) & 0x3FFF == 0
    && ((s >> 42) ^ s ^ (s >> 23) ^ (s >> 28)) & 0x3F_FFFF == 0
    && (s ^ (s >> 22) ^ ((s >> 50) | (s << 14)) ^ ((s >> 45) | (s << 19))) & 0xFFF_FFFF == 0
  }

  lemma ChangeStill(s: bv64)
    requires Change(s) == 0
    ensures Still(s)
  {
    hide Change;
    ChangeLow(s);
    ChangeMiddle(s);
    ChangeHigh(s);
  }

  lemma StillEnds(s: bv64)
    requires Still(s)
    ensures s & 3 == 0 || s & 3 == 3
  {}

  lemma StillZero(s: bv64)
    requires Still(s) && s & 3 == 0
    ensures s == 0
  {}

  lemma StillOnes(s: bv64)
    requires Still(s) && s & 3 == 3
    ensures s == ONES
  {}

  /** A state is stuck when its words are both all zeros or both all ones. */
  predicate Stuck(s: State) { s == State(0, 0) || s == State(ONES, ONES) }

  lemma StuckStays(s: State)
    requires Stuck(s)
    ensures Step(s) == s
  {}

  lemma SecondEnds()
    ensures Second(0) == 0 && Second(ONES) == ONES
  {}

  lemma OnlyStuckStays(s: State)
    requires Step(s) == s
    ensures Stuck(s)
  {
    hide First, Second, Change, Still;
    ChangeNames(s.s0);
    ChangeStill(s.s0);
    StillEnds(s.s0);
    if s.s0 & 3 == 0 { StillZero(s.s0); } else { StillOnes(s.s0); }
    SecondEnds();
  }

  /**
   * A step fixes a state exactly when that state is stuck: besides the all-zero state, the all-ones state is a
   * fixed point too, because the second word is rebuilt from the first instead of from their exclusive or.
   */
  lemma FixedPoints(s: State)
    ensures Step(s) == s <==> Stuck(s)
  {
    hide Stuck, Step;
    if Step(s) == s { OnlyStuckStays(s); }
    if Stuck(s) { StuckStays(s); }
  }

  // ---- Seeding ----

  function Shift(x: bv64): bv64 { x + 0x9E37_79B9_7F4A_7C15 }

  function Fold30(x: bv64): bv64 { x ^ (x >> 30) }

  function Scale1(x: bv64): bv64 { x * 0xBF58_476D_1CE4_E5B9 }

  function Fold27(x: bv64): bv64 { x ^ (x >> 27) }

  function Scale2(x: bv64): bv64 { x * 0x94D0_49BB_1331_11EB }

  function Fold31(x: bv64): bv64 { x ^ (x >> 31) }

  /** The source's splitmix64: each of its operations on a word is one function. */
  function SplitMix(x: bv64): bv64 { Fold31(Scale2(Fold27(Scale1(Fold30(Shift(x)))))) }

  function Unshift(x: bv64): bv64 { x - 0x9E37_79B9_7F4A_7C15 }

  function Unfold30(x: bv64): bv64 { x ^ (x >> 30) ^ (x >> 60) }

  function Unscale1(x: bv64): bv64 { x * 0x96DE_1B17_3F11_9089 }

  function Unfold27(x: bv64): bv64 { x ^ (x >> 27) ^ (x >> 54) }

  function Unscale2(x: bv64): bv64 { x * 0x3196_42B2_D24D_8EC3 }

  function Unfold31(x: bv64): bv64 { x ^ (x >> 31) ^ (x >> 62) }

  /** The inverse of `SplitMix`: its factors are the inverses of the factors there modulo 2^64. */
  function Unsplit(r: bv64): bv64 { Unshift(Unfold30(Unscale1(Unfold27(Unscale2(Unfold31(r)))))) }

  predicate UnshiftIs(r: bv64, x: bv64) { Unshift(r) == x }

  predicate Unfold30Is(r: bv64, x: bv64) { Unfold30(r) == x }

  predicate Unscale1Is(r: bv64, x: bv64) { Unscale1(r) == x }

  predicate Unfold27Is(r: bv64, x: bv64) { Unfold27(r) == x }

  predicate Unscale2Is(r: bv64, x: bv64) { Unscale2(r) == x }

  predicate Unfold31Is(r: bv64, x: bv64) { Unfold31(r) == x }

  lemma UnsplitWords(x: bv64)
    ensures UnshiftIs(x + 0x9E37_79B9_7F4A_7C15, x)
    ensures Unfold30Is(x ^ (x >> 30), x)
    ensures Unscale1Is(x * 0xBF58_476D_1CE4_E5B9, x)
    ensures Unfold27Is(x ^ (x >> 27), x)
    ensures Unscale2Is(x * 0x94D0_49BB_1331_11EB, x)
    ensures Unfold31Is(x ^ (x >> 31), x)
  {}

  lemma UnsplitNames(x: bv64)
    ensures UnshiftIs(Shift(x), x)
    ensures Unfold30Is(Fold30(x), x)
    ensures Unscale1Is(Scale1(x), x)
    ensures Unfold27Is(Fold27(x), x)
    ensures Unscale2Is(Scale2(x), x)
    ensures Unfold31Is(Fold31(x), x)
  {
    hide UnshiftIs, Unfold30Is, Unscale1Is, Unfold27Is, Unscale2Is, Unfold31Is;
    UnsplitWords(x);
  }

  lemma UnsplitSteps(x: bv64)
    ensures Unshift(Shift(x)) == x
    ensures Unfold30(Fold30(x)) == x
    ensures Unscale1(Scale1(x)) == x
    ensures Unfold27(Fold27(x)) == x
    ensures Unscale2(Scale2(x)) == x
    ensures Unfold31(Fold31(x)) == x
  {
    hide Shift, Fold30, Scale1, Fold27, Scale2, Fold31, Unshift, Unfold30, Unscale1, Unfold27, Unscale2, Unfold31;
    UnsplitNames(x);
  }

  /** splitmix64 loses nothing: its argument can be computed from its result. */
  lemma SplitMixUndone(x: bv64)
    ensures Unsplit(SplitMix(x)) == x
  {
    hide Shift, Fold30, Scale1, Fold27, Scale2, Fold31, Unshift, Unfold30, Unscale1, Unfold27, Unscale2, Unfold31;
    UnsplitSteps(x);
    UnsplitSteps(Shift(x));
    UnsplitSteps(Fold30(Shift(x)));
    UnsplitSteps(Scale1(Fold30(Shift(x))));
    UnsplitSteps(Fold27(Scale1(Fold30(Shift(x)))));
    UnsplitSteps(Scale2(Fold27(Scale1(Fold30(Shift(x))))));
  }

  /** The state that a seed gives. */
  function Seeded(seed: bv64): State {
    State(SplitMix(seed), SplitMix(SplitMix(seed)))
  }

  /** A seed gives the next two values of its splitmix64 chain. */
  lemma SeededUndone(seed: bv64)
    ensures Unsplit(Seeded(seed).s0) == seed && Unsplit(Seeded(seed).s1) == Seeded(seed).s0
  {
    hide SplitMix, Unsplit;
    SplitMixUndone(seed);
    SplitMixUndone(SplitMix(seed));
  }

  lemma SplitMixEnds()
    ensures SplitMix(0) == 0xE220_A839_7B1D_CDAF && SplitMix(ONES) == 0xE4D9_7177_1B65_2C20
  {}

  /** No seed gives a stuck state. */
  lemma SeededRuns(seed: bv64)
    ensures !Stuck(Seeded(seed))
  {
    hide SplitMix;
    SplitMixEnds();
  }

  /** Different seeds give different states. */
  lemma SeedsApart(a: bv64, b: bv64)
    requires Seeded(a) == Seeded(b)
    ensures a == b
  {
    hide SplitMix, Unsplit;
    SplitMixUndone(a);
    SplitMixUndone(b);
  }

  // ---- Whole runs ----

  /** The state after `n` steps. */
  function After(s: State, n: nat): State {
    if n == 0 then s else Step(After(s, n - 1))
  }

  /** Two runs that meet after as many steps began in the same state. */
  lemma {:induction false} RunsApart(a: State, b: State, n: nat)
    requires After(a, n) == After(b, n)
    ensures a == b
  {
    hide Step, Unstep;
    if n > 0 {
      StepUndone(After(a, n - 1));
      StepUndone(After(b, n - 1));
      RunsApart(a, b, n - 1);
    }
  }

  lemma {:induction false} StuckForEver(s: State, n: nat)
    requires Stuck(s)
    ensures After(s, n) == s
  {
    hide Stuck, Step;
    if n > 0 {
      StuckForEver(s, n - 1);
      StuckStays(s);
    }
  }

  /** A run reaches a stuck state only from that state. */
  lemma NeverStuck(s: State, n: nat)
    ensures Stuck(After(s, n)) <==> Stuck(s)
  {
    hide Stuck, Step;
    if Stuck(s) { StuckForEver(s, n); }
    if Stuck(After(s, n)) {
      StuckForEver(After(s, n), n);
      RunsApart(After(s, n), s, n);
    }
  }

  /** The generator moves at every step of every run from a seed: no such run reaches a fixed point. */
  lemma SeededNeverStuck(seed: bv64, n: nat)
    ensures After(Seeded(seed), n) != State(0, 0)
    ensures Step(After(Seeded(seed), n)) != After(Seeded(seed), n)
  {
    hide Step, Seeded;
    SeededRuns(seed);
    NeverStuck(Seeded(seed), n);
    FixedPoints(After(Seeded(seed), n));
  }

  // ---- The generator object ----

  class Generator {
    const s: array<bv64>

    ghost predicate Valid() { s.Length == 2 }

    ghost function Words(): State
      requires Valid()
      reads s
    {
      State(s[0], s[1])
    }

    /** A generator whose state is the one that `seed` gives. */
    constructor (seed: bv64)
      ensures Valid() && fresh(s) && Words() == Seeded(seed)
    {
      hide SplitMix;
      s := new bv64[2];
      new;
      Srand(seed);
    }

    /** The source fills the second word from the first after overwriting it. */
    method Srand(seed: bv64)
      requires Valid()
      modifies s
      ensures Words() == Seeded(seed) && !Stuck(Words())
    {
      hide SplitMix;
      s[0] := SplitMix(seed);
      s[1] := SplitMix(s[0]);
      SeededRuns(seed);
    }

    /** The sum of the words, and a step; the state before can be read back from the state after. */
    method Rand() returns (result: bv64)
      requires Valid()
      modifies s
      ensures result == Output(old(Words())) && IsSum(result, old(s[0]), old(s[1]))
      ensures Words() == Step(old(Words())) && Unstep(Words()) == old(Words())
    {
      hide First, Second, Unstep, Sum, IsSum;
      ghost var before := Words();
      var s0, s1 := s[0], s[1];
      result := Sum(s0, s1);
      SumIs(s0, s1);
      s[0] := First(s0, s1);
      s[1] := Second(s0);
      StepUndone(before);
    }
  }

  /** Seeds a generator and draws `n` numbers: it is then `n` steps from its seed, and not stuck. */
  method Draw(seed: bv64, n: nat) returns (g: Generator, drawn: seq<bv64>)
    ensures fresh(g) && fresh(g.s) && g.Valid() && g.Words() == After(Seeded(seed), n) && !Stuck(g.Words())
    ensures |drawn| == n
    ensures forall i :: 0 <= i < n ==> drawn[i] == Output(After(Seeded(seed), i))
  {
    hide Step, Seeded, Unstep, Stuck, Output;
    g := new Generator(seed);
    drawn := [];
    for i := 0 to n
      invariant fresh(g) && fresh(g.s) && g.Valid() && g.Words() == After(Seeded(seed), i) && |drawn| == i
      invariant forall j :: 0 <= j < i ==> drawn[j] == Output(After(Seeded(seed), j))
    {
      var x := g.Rand();
      drawn := drawn + [x];
    }
    SeededRuns(seed);
    NeverStuck(Seeded(seed), n);
  }
}
