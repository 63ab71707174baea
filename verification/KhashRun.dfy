/** Whole runs of a khash table, as its users drive it, against runs of a finite map. */
module KhashRun {
  import opened Bits
  import opened Probing
  import opened KhashSizing
  import opened KhashTable
  import opened Options
  import Khash

  /** What the users of the table do: put and write the value, get and delete, get and read, clear, resize. Where an
      operation allocates, `mem` is how many of its allocations succeed; three are always enough. */
  datatype Op<K, V> =
    | Store(key: K, val: V, mem: nat)
    | Remove(key: K)
    | Lookup(key: K)
    | Wipe
    | Rebuild(request: U32, mem: nat)

  datatype Answer<V> = Stored(isNew: bool) | Removed(wasThere: bool) | Found(val: Option<V>) | Done | NoMemory

  /** What an operation does to a finite map; one that fails for lack of memory does nothing. */
  function MapStep<K, V>(m: map<K, V>, op: Op<K, V>, fails: bool): (map<K, V>, Answer<V>) {
    if fails then (m, NoMemory)
    else
      match op
      case Store(k, v, _) => (m[k := v], Stored(k !in m))
      case Remove(k) => (m - {k}, Removed(k in m))
      case Lookup(k) => (m, Found(if k in m then Some(m[k]) else None))
      case Wipe => (map[], Done)
      case Rebuild(_, _) => (m, Done)
  }

  /** A run on a finite map in which the marked operations fail. */
  function MapRun<K, V>(m: map<K, V>, ops: seq<Op<K, V>>, fails: seq<bool>): (map<K, V>, seq<Answer<V>>)
    requires |ops| == |fails|
  {
    if |ops| == 0 then (m, [])
    else
      var last := |ops| - 1;
      var (m', answers) := MapRun(m, ops[..last], fails[..last]);
      var (m'', a) := MapStep(m', ops[last], fails[last]);
      (m'', answers + [a])
  }

  /** Which operations of a run failed, by its answers. */
  function Failed<V>(answers: seq<Answer<V>>): (fails: seq<bool>)
    ensures |fails| == |answers|
  {
    seq(|answers|, i requires 0 <= i < |answers| => answers[i].NoMemory?)
  }

  /** Whether the operation can run out of memory. */
  predicate Scarce<K, V>(op: Op<K, V>) {
    (op.Store? || op.Rebuild?) && op.mem < 3
  }

  /** The keys after a run in which nothing fails: no run of the same operations has others. */
  function KeysRun<K, V>(keys: set<K>, ops: seq<Op<K, V>>): set<K> {
    if |ops| == 0 then keys
    else
      var last := |ops| - 1;
      var before := KeysRun(keys, ops[..last]);
      match ops[last]
      case Store(k, _, _) => before + {k}
      case Remove(k) => before - {k}
      case Wipe => {}
      case _ => before
  }

  lemma {:induction false} FailingAddsNoKeys<K, V>(m: map<K, V>, ops: seq<Op<K, V>>, fails: seq<bool>)
    requires |ops| == |fails| && forall i :: 0 <= i < |ops| && fails[i] ==> Scarce(ops[i])
    ensures MapRun(m, ops, fails).0.Keys <= KeysRun(m.Keys, ops)
  {
    if |ops| > 0 {
      var last := |ops| - 1;
      FailingAddsNoKeys(m, ops[..last], fails[..last]);
    }
  }

  lemma FewerKeys<K, V>(m: map<K, V>, keys: set<K>)
    requires m.Keys <= keys
    ensures |m| <= |keys|
  {
    assert |keys - m.Keys| == |keys| - |m.Keys|;
  }

  /** Each store finds fewer than 2^27 keys. */
  ghost predicate Roomy<K, V>(keys: set<K>, ops: seq<Op<K, V>>) {
    forall i :: 0 <= i < |ops| && ops[i].Store? ==> |KeysRun(keys, ops[..i])| < 0x800_0000
  }

  /** The keys stay below 72477573 and no rebuild asks for more than 2^28 buckets, so growth never meets the wrap. */
  ghost predicate Modest<K, V>(keys: set<K>, ops: seq<Op<K, V>>) {
    forall i :: 0 <= i < |ops| ==> |KeysRun(keys, ops[..i])| < 72477573 && Small(ops[i])
  }

  ghost predicate Small<K, V>(op: Op<K, V>) {
    op.Rebuild? ==> Target(op.request) <= 0x1000_0000
  }

  /** Within its load bound, and with no more buckets than where that bound first wraps. */
  ghost predicate Bounded<K(0), V(0)>(t: Khash.Table<K, V>)
    reads t
  {
    t.nOccupied <= t.upperBound && t.nBuckets <= 0x1000_0000
  }

  method StoreKey<K(0,==), V(0)>(t: Khash.Table<K, V>, k: K, v: V, mem: nat) returns (a: Answer<V>)
    requires t.Valid() && t.size < 0x800_0000
    modifies t, t.flags, t.keys, t.vals
    ensures t.Valid() && fresh(t.Repr() - old(t.Repr()))
    ensures a.NoMemory? ==> mem < 3
    ensures (t.Contents(), a) == MapStep(old(t.Contents()), Store(k, v, mem), a.NoMemory?)
    ensures old(Bounded(t)) && old(t.size) < 72477573 ==> Bounded(t)
  {
    hide Khash.Table.Valid, Khash.Table.Contents, Khash.Table.HasRoom, HashUpper, Target;
    t.RoomOrFree();
    if Bounded(t) && t.size < 72477573 {
      t.RoomWhenSmall();
    }
    var x, ret := t.Put(k, mem);
    if ret == -1 {
      return NoMemory;
    }
    t.PresentBucket(k);
    t.BlocksFit();
    UpdateTwice(old(t.Contents()), k, t.vals[x], v);
    t.SetVal(x, v);
    a := Stored(ret != 0);
  }

  lemma UpdateTwice<K, V>(m: map<K, V>, k: K, a: V, b: V)
    ensures m[k := a][k := b] == m[k := b]
  {
  }

  method RemoveKey<K(0,==), V(0)>(t: Khash.Table<K, V>, k: K) returns (wasThere: bool)
    requires t.Valid()
    modifies t, t.flags
    ensures t.Valid() && fresh(t.Repr() - old(t.Repr()))
    ensures t.Contents() == old(t.Contents()) - {k} && wasThere == (k in old(t.Contents()))
    ensures old(Bounded(t)) ==> Bounded(t)
  {
    hide Indexed, HashUpper, Target, Count;
    var x := t.Get(k);
    wasThere := x != t.nBuckets;
    t.PresentBucket(k);
    t.Del(x);
  }

  method LookupKey<K(0,==), V(0)>(t: Khash.Table<K, V>, k: K) returns (v: Option<V>)
    requires t.Valid()
    ensures v == if k in t.Contents() then Some(t.Contents()[k]) else None
  {
    hide Indexed, HashUpper, Target, Count;
    var x := t.Get(k);
    t.PresentBucket(k);
    v := if x == t.nBuckets then None else Some(t.vals[x]);
  }

  /** Whether the operation breaks the table: only a shrinking resize that is short of memory does. */
  predicate Breaks<K(0), V(0)>(t: Khash.Table<K, V>, op: Op<K, V>)
    reads t
  {
    op.Rebuild? && t.Breaks(op.request, op.mem)
  }

  /** One operation on the table answers as the map does and, unless it breaks it, leaves the table standing for the
      map's next state; it fails only where memory is scarce. */
  method Step<K(0,==), V(0)>(t: Khash.Table<K, V>, op: Op<K, V>) returns (a: Answer<V>)
    requires t.Valid() && (op.Store? ==> t.size < 0x800_0000)
    modifies t, t.flags, t.keys, t.vals
    ensures t.Valid() <==> !old(Breaks(t, op))
    ensures a.NoMemory? ==> Scarce(op)
    ensures a == MapStep(old(t.Contents()), op, a.NoMemory?).1
    ensures t.Valid() ==> fresh(t.Repr() - old(t.Repr()))
    ensures t.Valid() ==> t.Contents() == MapStep(old(t.Contents()), op, a.NoMemory?).0
    ensures t.Valid() && old(Bounded(t)) && old(t.size) < 72477573 && Small(op) ==> Bounded(t)
  {
    hide Indexed, HashUpper, Target, Count;
    match op {
      case Store(k, v, mem) =>
        a := StoreKey(t, k, v, mem);
      case Remove(k) =>
        var wasThere := RemoveKey(t, k);
        a := Removed(wasThere);
      case Lookup(k) =>
        var v := LookupKey(t, k);
        a := Found(v);
      case Wipe =>
        t.Clear();
        a := Done;
      case Rebuild(n, mem) =>
        ghost var breaks := Breaks(t, op);
        var r := t.Resize(n, mem);
        if !breaks {
          t.SizeBounds();
        }
        a := if r == 0 then Done else NoMemory;
    }
  }

  lemma RunExtend<K, V>(m: map<K, V>, ops: seq<Op<K, V>>, answers: seq<Answer<V>>, i: nat, a: Answer<V>)
    requires |answers| == i < |ops|
    ensures |Failed(answers + [a])| == i + 1
    ensures MapRun(m, ops[..i + 1], Failed(answers + [a])) ==
            var (m', before) := MapRun(m, ops[..i], Failed(answers));
            var (m'', b) := MapStep(m', ops[i], a.NoMemory?);
            (m'', before + [b])
  {
    hide MapStep;
    assert ops[..i + 1][..i] == ops[..i];
    assert Failed(answers + [a])[..i] == Failed(answers);
  }

  lemma RunNothing<K, V>(m: map<K, V>, ops: seq<Op<K, V>>)
    ensures MapRun(m, ops[..0], Failed<V>([])) == (m, [])
  {
  }

  /** In the middle of a run the table holds no more keys than if nothing had failed. */
  lemma RunKeys<K, V>(m: map<K, V>, ops: seq<Op<K, V>>, answers: seq<Answer<V>>)
    requires |answers| <= |ops|
    requires forall i :: 0 <= i < |answers| && answers[i].NoMemory? ==> Scarce(ops[i])
    ensures |MapRun(m, ops[..|answers|], Failed(answers)).0| <= |KeysRun(m.Keys, ops[..|answers|])|
  {
    hide MapRun, KeysRun;
    FailingAddsNoKeys(m, ops[..|answers|], Failed(answers));
    FewerKeys(MapRun(m, ops[..|answers|], Failed(answers)).0, KeysRun(m.Keys, ops[..|answers|]));
  }

  /** Refinement over every run, of any length, whose stores find fewer than 2^27 keys: the answers and the final
      contents are those of a finite map on which the operations that answer NoMemory do nothing, and only operations
      short of memory answer so. A run ends early only at a resize that breaks the table. In a modest run the load bound
      is kept too. */
  method Run<K(0,==), V(0)>(t: Khash.Table<K, V>, ops: seq<Op<K, V>>) returns (answers: seq<Answer<V>>, broken: bool)
    requires t.Valid() && Roomy(t.Contents().Keys, ops)
    modifies t, t.flags, t.keys, t.vals
    ensures |answers| <= |ops| && answers == MapRun(old(t.Contents()), ops[..|answers|], Failed(answers)).1
    ensures forall i :: 0 <= i < |answers| && answers[i].NoMemory? ==> Scarce(ops[i])
    ensures broken ==> 0 < |answers| && ops[|answers| - 1].Rebuild? && 0 < ops[|answers| - 1].mem < 3
    ensures !broken ==>
              && t.Valid() && |answers| == |ops|
              && t.Contents() == MapRun(old(t.Contents()), ops, Failed(answers)).0
    ensures !broken && old(Bounded(t)) && Modest(old(t.Contents()).Keys, ops) ==> Bounded(t)
  {
    hide Khash.Table.Valid, Khash.Table.Contents, HashUpper, Target, MapStep, MapRun, KeysRun, Small, Bounded, Failed;
    answers, broken := [], false;
    ghost var m := t.Contents();
    RunNothing(m, ops);
    for i := 0 to |ops|
      invariant t.Valid() && fresh(t.Repr() - old(t.Repr())) && |answers| == i && !broken
      invariant (t.Contents(), answers) == MapRun(m, ops[..i], Failed(answers))
      invariant forall j :: 0 <= j < i && answers[j].NoMemory? ==> Scarce(ops[j])
      invariant old(Bounded(t)) && Modest(m.Keys, ops) ==> Bounded(t)
    {
      RunKeys(m, ops, answers);
      broken := Breaks(t, ops[i]);
      var a := Step(t, ops[i]);
      RunExtend(m, ops, answers, i, a);
      answers := answers + [a];
      if broken {
        return;
      }
    }
    assert ops[..|ops|] == ops;
  }

  /** With memory enough, a run is the run of a finite map in which nothing fails, and it never ends early. */
  method RunPlenty<K(0,==), V(0)>(t: Khash.Table<K, V>, ops: seq<Op<K, V>>) returns (answers: seq<Answer<V>>)
    requires t.Valid() && Roomy(t.Contents().Keys, ops)
    requires forall i :: 0 <= i < |ops| && (ops[i].Store? || ops[i].Rebuild?) ==> ops[i].mem >= 3
    modifies t, t.flags, t.keys, t.vals
    ensures t.Valid() && (t.Contents(), answers) == MapRun(old(t.Contents()), ops, seq(|ops|, _ => false))
  {
    hide Khash.Table.Valid, Khash.Table.Contents, MapRun, Roomy;
    var broken;
    answers, broken := Run(t, ops);
    assert ops[..|ops|] == ops && Failed(answers) == seq(|ops|, _ => false);
  }

  /** The bound of 2^27 keys is reached by a run and is sharp there: whatever the hash function, a table made with 2^27
      buckets and filled with 2^27 keys answers 0, "present", for a key that is absent. */
  method Misreport(hash: nat -> U32) returns (t: Khash.Table<nat, nat>, x: nat, ret: int)
    ensures t.Valid() && ret == 0 && 0x800_0000 !in t.Contents() && |t.Contents()| == 0x800_0000
  {
    hide Khash.Table.Valid, Khash.Table.Contents, Khash.Table.Grows, Khash.Table.HasRoom, HashUpper, Target, Count;
    t := new Khash.Table(hash);
    t.SizeBounds();
    WrapSizes();
    var _ := t.Resize(0x7FF_FFFF, 3);
    for i := 0 to 0x800_0000
      invariant t.Valid() && fresh(t) && fresh(t.Repr()) && t.nBuckets == 0x800_0000 && t.size == t.nOccupied == i
      invariant forall k :: k in t.Contents() ==> k < i
    {
      t.StuckAtWrap();
      x, ret := t.Put(i, 3);
      t.SizeBounds();
    }
    t.FullAtWrap();
    x, ret := t.Put(0x800_0000, 3);
  }

  lemma WrapSizes()
    ensures Target(0x7FF_FFFF) == 0x800_0000 && 0 < HashUpper(0x800_0000)
  {
    hide Target, HashUpper;
    Exp2Values();
    Pow2Exp2(27);
    assert Exp2(27) == 2 * (2 * (2 * Exp2(24)));
    PutTargets(Exp2(27));
    HashUpperLarge();
  }

  /** A resize that breaks a table: eight empty buckets shrunk to four with memory for the flags only. It answers 0. */
  method ShrunkToNothing(hash: nat -> U32) returns (t: Khash.Table<nat, nat>, r: int)
    ensures r == 0 && !t.Valid()
  {
    hide Khash.Table.Valid, Khash.Table.Contents, HashUpper, Target, Count;
    t := new Khash.Table(hash);
    SmallTargets();
    t.SizeBounds();
    r := t.Resize(7, 3);
    r := t.Resize(3, 1);
  }

  lemma SmallTargets()
    ensures Target(7) == 8 && Target(3) == 4 && HashUpper(8) == 6 && HashUpper(4) == 3
  {
    hide Target;
    assert IsPow2(4) && IsPow2(8);
    PutTargets(8);
    PutTargets(4);
  }
}
