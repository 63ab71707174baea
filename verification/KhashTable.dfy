/** What the bucket arrays of a khash mean: probe paths, positions of keys, and the half-moved table of a rehash. */
module KhashTable {
  import opened Probing
  import opened KhashSizing

  /** The flag byte of a bucket: 0, __ac_bit_deleted, __ac_bit_empty. No other value is ever stored. */
  datatype Flag = Live | Deleted | Empty

  function Count(flags: seq<Flag>, f: Flag): nat {
    if |flags| == 0 then 0
    else Count(flags[..|flags| - 1], f) + (if flags[|flags| - 1] == f then 1 else 0)
  }

  /** The first s probes from h meet no empty bucket. */
  ghost predicate Path(flags: seq<Flag>, h: nat, s: nat)
    requires |flags| > 0
  {
    forall t: nat :: t < s ==> flags[Probe(h, t, |flags|)] != Empty
  }

  /** Probing from h arrives at bucket i before any empty bucket. */
  ghost predicate Reachable(flags: seq<Flag>, h: nat, i: nat)
    requires |flags| > 0
  {
    exists s: nat :: Probe(h, s, |flags|) == i && Path(flags, h, s)
  }

  /** Live buckets and keys are in one-to-one correspondence through pos. */
  ghost predicate Positions<K>(flags: seq<Flag>, keys: seq<K>, pos: map<K, nat>) {
    && |flags| <= |keys|
    && (forall i: nat :: i < |flags| && flags[i] == Live ==> keys[i] in pos && pos[keys[i]] == i)
    && (forall k :: k in pos ==> pos[k] < |flags| && flags[pos[k]] == Live && keys[pos[k]] == k)
  }

  /** Positions, and every key can be found by probing from its hash. */
  ghost predicate Indexed<K>(hash: K -> U32, flags: seq<Flag>, keys: seq<K>, pos: map<K, nat>) {
    && Positions(flags, keys, pos)
    && (forall k :: k in pos ==> Reachable(flags, hash(k), pos[k]))
  }

  /** The first s probes from h met neither an empty bucket nor the key. */
  ghost predicate Missed<K>(flags: seq<Flag>, keys: seq<K>, key: K, h: nat, s: nat)
    requires 0 < |flags| <= |keys|
  {
    forall t: nat :: t < s ==>
                       var i := Probe(h, t, |flags|);
                       flags[i] == Deleted || (flags[i] == Live && keys[i] != key)
  }

  /** No tombstone among the first s probes from h. */
  ghost predicate NoTombstone(flags: seq<Flag>, h: nat, s: nat)
    requires |flags| > 0
  {
    forall t: nat :: t < s ==> flags[Probe(h, t, |flags|)] != Deleted
  }

  /** Bucket x is the last tombstone among the first s probes from h. */
  ghost predicate LastTombstone(flags: seq<Flag>, h: nat, s: nat, x: nat)
    requires |flags| > 0
  {
    exists t: nat ::
      && t < s && Probe(h, t, |flags|) == x && flags[Probe(h, t, |flags|)] == Deleted
      && forall u: nat :: t < u < s ==> flags[Probe(h, u, |flags|)] != Deleted
  }

  /** The walk for an absent key from h ends at step s: at an empty bucket, or after a whole round without one. */
  ghost predicate Ends(flags: seq<Flag>, h: nat, s: nat)
    requires |flags| > 0
  {
    Path(flags, h, s) && (flags[Probe(h, s, |flags|)] == Empty || s == 2 * |flags| - 1)
  }

  /** The bucket that an absent key gets: the last tombstone that the walk passes, or else where it ends. */
  ghost predicate Chosen(flags: seq<Flag>, h: nat, x: nat)
    requires |flags| > 0
  {
    exists s: nat ::
      Ends(flags, h, s) && if NoTombstone(flags, h, s) then x == Probe(h, s, |flags|) else LastTombstone(flags, h, s, x)
  }

  lemma TombstoneStep(flags: seq<Flag>, h: nat, s: nat, x: nat)
    requires |flags| > 0
    ensures flags[Probe(h, s, |flags|)] == Deleted ==> LastTombstone(flags, h, s + 1, Probe(h, s, |flags|))
    ensures flags[Probe(h, s, |flags|)] != Deleted && LastTombstone(flags, h, s, x) ==>
              LastTombstone(flags, h, s + 1, x)
  {
  }

  lemma TombstoneIsOne(flags: seq<Flag>, h: nat, s: nat, x: nat)
    requires |flags| > 0 && LastTombstone(flags, h, s, x)
    ensures !NoTombstone(flags, h, s)
  {
  }

  lemma MissedPath<K>(flags: seq<Flag>, keys: seq<K>, key: K, h: nat, s: nat)
    requires 0 < |flags| <= |keys| && Missed(flags, keys, key, h, s)
    ensures Path(flags, h, s)
  {
  }

  // ----- counting

  lemma {:induction false} CountUpdate(flags: seq<Flag>, i: nat, g: Flag, f: Flag)
    requires i < |flags|
    ensures Count(flags[i := g], f) ==
            Count(flags, f) - (if flags[i] == f then 1 else 0) + (if g == f then 1 else 0)
  {
    var last := |flags| - 1;
    if i == last {
      assert flags[i := g][..last] == flags[..last];
    } else {
      assert flags[i := g][..last] == flags[..last][i := g];
      CountUpdate(flags[..last], i, g, f);
    }
  }

  lemma {:induction false} CountConstant(flags: seq<Flag>, f: Flag)
    requires forall i :: 0 <= i < |flags| ==> flags[i] == f
    ensures Count(flags, f) == |flags|
    ensures forall g :: g != f ==> Count(flags, g) == 0
  {
    if |flags| > 0 {
      CountConstant(flags[..|flags| - 1], f);
    }
  }

  lemma {:induction false} CountSum(flags: seq<Flag>)
    ensures Count(flags, Live) + Count(flags, Deleted) + Count(flags, Empty) == |flags|
  {
    if |flags| > 0 {
      CountSum(flags[..|flags| - 1]);
    }
  }

  lemma {:induction false} CountWitness(flags: seq<Flag>, f: Flag) returns (i: nat)
    requires Count(flags, f) > 0
    ensures i < |flags| && flags[i] == f
  {
    var last := |flags| - 1;
    if flags[last] == f {
      i := last;
    } else {
      i := CountWitness(flags[..last], f);
    }
  }

  lemma {:induction false} CountNone(flags: seq<Flag>, f: Flag)
    requires forall i :: 0 <= i < |flags| ==> flags[i] != f
    ensures Count(flags, f) == 0
  {
    if |flags| > 0 {
      CountNone(flags[..|flags| - 1], f);
    }
  }

  lemma DropLastPosition<K>(flags: seq<Flag>, keys: seq<K>, pos: map<K, nat>)
    requires |flags| > 0 && Positions(flags, keys, pos)
    ensures var last := |flags| - 1;
            Positions(flags[..last], keys, if flags[last] == Live then pos - {keys[last]} else pos)
  {
    var last := |flags| - 1;
    var rest, pos' := flags[..last], if flags[last] == Live then pos - {keys[last]} else pos;
    forall k | k in pos'
      ensures pos'[k] < |rest| && rest[pos'[k]] == Live && keys[pos'[k]] == k
    {
      assert pos[k] != last;
    }
    forall i: nat | i < |rest| && rest[i] == Live
      ensures keys[i] in pos' && pos'[keys[i]] == i
    {
      assert flags[i] == Live;
    }
  }

  /** The number of keys is the number of live buckets. */
  lemma {:induction false} PositionsCount<K>(flags: seq<Flag>, keys: seq<K>, pos: map<K, nat>)
    requires Positions(flags, keys, pos)
    ensures |pos| == Count(flags, Live)
    decreases |flags|
  {
    if |flags| == 0 {
      assert pos.Keys == {};
    } else {
      var last := |flags| - 1;
      DropLastPosition(flags, keys, pos);
      if flags[last] == Live {
        var pos' := pos - {keys[last]};
        PositionsCount(flags[..last], keys, pos');
        assert keys[last] in pos;
        assert pos.Keys == pos'.Keys + {keys[last]};
        assert |pos.Keys| == |pos'.Keys| + 1;
      } else {
        PositionsCount(flags[..last], keys, pos);
      }
    }
  }

  // ----- looking up

  lemma MissedIsPath<K>(flags: seq<Flag>, keys: seq<K>, key: K, h: nat, s: nat)
    requires 0 < |flags| <= |keys| && Missed(flags, keys, key, h, s)
    ensures Reachable(flags, h, Probe(h, s, |flags|))
  {
    assert Path(flags, h, s);
  }

  lemma LiveMeansPresent<K>(hash: K -> U32, flags: seq<Flag>, keys: seq<K>, pos: map<K, nat>, i: nat)
    requires Indexed(hash, flags, keys, pos) && i < |flags| <= |keys| && flags[i] == Live
    ensures keys[i] in pos && pos[keys[i]] == i
  {
  }

  lemma PresentIsLive<K>(hash: K -> U32, flags: seq<Flag>, keys: seq<K>, pos: map<K, nat>, key: K)
    requires Indexed(hash, flags, keys, pos) && key in pos
    ensures pos[key] < |flags| && flags[pos[key]] == Live
  {
  }

  /** A walk that missed and then met an empty bucket has shown the key absent. */
  lemma EmptyMeansAbsent<K>(hash: K -> U32, flags: seq<Flag>, keys: seq<K>, pos: map<K, nat>, key: K, s: nat)
    requires |flags| > 0 && Indexed(hash, flags, keys, pos)
    requires Missed(flags, keys, key, hash(key), s) && flags[Probe(hash(key), s, |flags|)] == Empty
    ensures key !in pos
  {
    if key in pos {
      var r: nat :| Probe(hash(key), r, |flags|) == pos[key] && Path(flags, hash(key), r);
    }
  }

  /** A walk that missed for a full round has inspected every bucket. */
  lemma FullRoundMeansAbsent<K>(hash: K -> U32, flags: seq<Flag>, keys: seq<K>, pos: map<K, nat>, key: K, s: nat)
    requires IsPow2(|flags|) && Indexed(hash, flags, keys, pos)
    requires |flags| <= s && Missed(flags, keys, key, hash(key), s)
    ensures key !in pos
    ensures forall i: nat :: i < |flags| ==> flags[i] != Empty
  {
    forall i: nat | i < |flags|
      ensures flags[i] != Empty && (flags[i] == Live ==> keys[i] != key)
    {
      var t := Coverage(hash(key), i, |flags|);
      assert t < s;
    }
  }

  /** If that full round met no tombstone either, the table is full. */
  lemma FullRoundMeansFull<K>(hash: K -> U32, flags: seq<Flag>, keys: seq<K>, pos: map<K, nat>, h: nat, s: nat)
    requires IsPow2(|flags|) && Indexed(hash, flags, keys, pos) && |flags| <= s
    requires forall t: nat :: t < s ==> flags[Probe(h, t, |flags|)] == Live
    ensures |pos| == |flags|
  {
    forall i: nat | i < |flags|
      ensures flags[i] == Live
    {
      var t := Coverage(h, i, |flags|);
      assert t < s;
    }
    PositionsCount(flags, keys, pos);
    CountConstant(flags, Live);
  }

  lemma FullMeansLive<K>(flags: seq<Flag>, keys: seq<K>, pos: map<K, nat>, x: nat)
    requires Positions(flags, keys, pos) && |pos| == |flags| && x < |flags|
    ensures flags[x] == Live
  {
    PositionsCount(flags, keys, pos);
    CountSum(flags);
    if flags[x] != Live {
      CountUpdate(flags, x, Live, flags[x]);
    }
  }

  // ----- inserting

  /** Filling a non-live bucket keeps every probe path. */
  lemma FillKeepsReachable(flags: seq<Flag>, x: nat, f: Flag, h: nat, i: nat)
    requires x < |flags| && f != Empty && Reachable(flags, h, i)
    ensures Reachable(flags[x := f], h, i)
  {
    var s: nat :| Probe(h, s, |flags|) == i && Path(flags, h, s);
    assert Path(flags[x := f], h, s);
  }

  /** Putting an absent key into a non-live bucket on its own probe path. */
  lemma InsertKeepsIndexed<K>(hash: K -> U32, flags: seq<Flag>, keys: seq<K>, pos: map<K, nat>, key: K, x: nat)
    requires Indexed(hash, flags, keys, pos) && key !in pos
    requires x < |flags| && flags[x] != Live && Reachable(flags, hash(key), x)
    ensures Indexed(hash, flags[x := Live], keys[x := key], pos[key := x])
  {
    var flags', keys', pos' := flags[x := Live], keys[x := key], pos[key := x];
    forall k | k in pos'
      ensures Reachable(flags', hash(k), pos'[k])
    {
      FillKeepsReachable(flags, x, Live, hash(k), pos'[k]);
    }
  }

  /** Turning a live bucket into a tombstone. */
  lemma DeleteKeepsIndexed<K>(hash: K -> U32, flags: seq<Flag>, keys: seq<K>, pos: map<K, nat>, x: nat)
    requires Indexed(hash, flags, keys, pos) && x < |flags| && flags[x] == Live
    ensures Indexed(hash, flags[x := Deleted], keys, pos - {keys[x]})
  {
    var flags', pos' := flags[x := Deleted], pos - {keys[x]};
    forall k | k in pos'
      ensures Reachable(flags', hash(k), pos'[k])
    {
      FillKeepsReachable(flags, x, Deleted, hash(k), pos'[k]);
    }
  }

  // ----- the half-moved table of a rehash

  /** Each key of m that pos covers has its value at the bucket pos gives. */
  ghost predicate Carries<K, V>(vals: seq<V>, pos: map<K, nat>, m: map<K, V>) {
    forall k :: k in pos ==> k in m && pos[k] < |vals| && vals[pos[k]] == m[k]
  }

  /** Old flags say what still waits in the arrays (from), new flags what has been placed (to); nothing is both. */
  ghost predicate Moving<K, V>(hash: K -> U32, old_: seq<Flag>, new_: seq<Flag>, keys: seq<K>, vals: seq<V>,
                               from: map<K, nat>, to: map<K, nat>, m: map<K, V>) {
    && |old_| <= |vals| && |new_| <= |vals|
    && Positions(old_, keys, from)
    && Indexed(hash, new_, keys, to)
    && (forall i: nat :: i < |old_| && i < |new_| && new_[i] != Empty ==> old_[i] != Live)
    && (forall i: nat :: i < |new_| ==> new_[i] != Deleted)
    && Carries(vals, from, m)
    && Carries(vals, to, m)
    && from.Keys !! to.Keys
  }

  /** Marking an old bucket as deleted takes its entry out of the waiting set. */
  lemma LiftKeepsMoving<K, V>(hash: K -> U32, old_: seq<Flag>, new_: seq<Flag>, keys: seq<K>, vals: seq<V>,
                              from: map<K, nat>, to: map<K, nat>, m: map<K, V>, j: nat)
    requires Moving(hash, old_, new_, keys, vals, from, to, m)
    requires j < |old_| && old_[j] == Live
    ensures Moving(hash, old_[j := Deleted], new_, keys, vals, from - {keys[j]}, to, m)
    ensures keys[j] in from && keys[j] !in to && m[keys[j]] == vals[j]
    ensures |from - {keys[j]}| == |from| - 1
    ensures forall k :: k in from - {keys[j]} ==> from[k] != j
  {
    assert from.Keys == (from - {keys[j]}).Keys + {keys[j]};
  }

  /** Writing the lifted entry into a bucket that is empty in the new table and not waiting in the old one. */
  lemma PlaceKeepsMoving<K, V>(hash: K -> U32, old_: seq<Flag>, new_: seq<Flag>, keys: seq<K>, vals: seq<V>,
                               from: map<K, nat>, to: map<K, nat>, m: map<K, V>, key: K, i: nat)
    requires Moving(hash, old_, new_, keys, vals, from, to, m)
    requires key in m && key !in from && key !in to
    requires i < |new_| && new_[i] == Empty && (i < |old_| ==> old_[i] != Live)
    requires Reachable(new_, hash(key), i)
    ensures Moving(hash, old_, new_[i := Live], keys[i := key], vals[i := m[key]], from, to[key := i], m)
  {
    InsertKeepsIndexed(hash, new_, keys, to, key, i);
  }

  /** The start of a rehash: everything waits, nothing is placed. */
  lemma MovingStart<K, V>(hash: K -> U32, old_: seq<Flag>, n: nat, keys: seq<K>, vals: seq<V>,
                          from: map<K, nat>, m: map<K, V>)
    requires n <= |keys| && |old_| <= |vals| && n <= |vals|
    requires Indexed(hash, old_, keys, from) && Carries(vals, from, m)
    ensures Moving(hash, old_, seq(n, _ => Empty), keys, vals, from, map[], m)
  {
  }

  /** An entry of m is in the hand: it neither waits nor is placed, and all the others do. */
  ghost predicate InHand<K, V>(from: map<K, nat>, to: map<K, nat>, m: map<K, V>, key: K, val: V) {
    && key in m && val == m[key] && key !in from && key !in to
    && m.Keys == from.Keys + to.Keys + {key}
  }

  /** The entries of a that still wait, wait where they did in b. */
  ghost predicate Within<K>(a: map<K, nat>, b: map<K, nat>) {
    forall k :: k in a ==> k in b && a[k] == b[k]
  }

  lemma Smaller<K, V>(to: map<K, nat>, m: map<K, V>)
    requires to.Keys < m.Keys
    ensures |to| < |m|
  {
    assert |m.Keys - to.Keys| == |m.Keys| - |to.Keys|;
  }

  lemma SwapSets<T>(a: set<T>, b: set<T>, x: T, y: T)
    requires y in a
    ensures a + b + {x} == (a - {y}) + (b + {x}) + {y}
  {
  }

  /** The entry y leaves the waiting set for the hand, while x leaves the hand for bucket i. */
  lemma SwapHand<K, V>(from: map<K, nat>, to: map<K, nat>, m: map<K, V>, x: K, i: nat, y: K)
    requires x in m && InHand(from, to, m, x, m[x]) && y in from && y !in to && y in m
    ensures InHand(from - {y}, to[x := i], m, y, m[y])
  {
    assert (from - {y}).Keys == from.Keys - {y};
    assert to[x := i].Keys == to.Keys + {x};
    SwapSets(from.Keys, to.Keys, x, y);
  }

  /** The entry in the hand lands in a bucket where nothing waits: the hand is empty. */
  lemma LandKeepsMoving<K, V>(hash: K -> U32, old_: seq<Flag>, new_: seq<Flag>, keys: seq<K>, vals: seq<V>,
                              from: map<K, nat>, to: map<K, nat>, m: map<K, V>, key: K, val: V, i: nat)
    requires Moving(hash, old_, new_, keys, vals, from, to, m) && InHand(from, to, m, key, val)
    requires i < |new_| <= |keys| && |new_| <= |vals| && new_[i] == Empty && Reachable(new_, hash(key), i)
    requires i < |old_| ==> old_[i] != Live
    ensures Moving(hash, old_, new_[i := Live], keys[i := key], vals[i := val], from, to[key := i], m)
    ensures m.Keys == from.Keys + to[key := i].Keys
  {
    hide Moving;
    PlaceKeepsMoving(hash, old_, new_, keys, vals, from, to, m, key, i);
    assert to[key := i].Keys == to.Keys + {key};
  }

  /** Kicking out: the entry in the hand takes bucket i, and the entry that waited there is in the hand next. */
  lemma KickKeepsMoving<K, V>(hash: K -> U32, old_: seq<Flag>, new_: seq<Flag>, keys: seq<K>, vals: seq<V>,
                              from: map<K, nat>, to: map<K, nat>, m: map<K, V>, key: K, val: V, i: nat)
    requires Moving(hash, old_, new_, keys, vals, from, to, m) && InHand(from, to, m, key, val)
    requires i < |new_| <= |keys| && |new_| <= |vals| && new_[i] == Empty && Reachable(new_, hash(key), i)
    requires i < |old_| && old_[i] == Live
    ensures Moving(hash, old_[i := Deleted], new_[i := Live], keys[i := key], vals[i := val],
                   from - {keys[i]}, to[key := i], m)
    ensures InHand(from - {keys[i]}, to[key := i], m, keys[i], vals[i])
    ensures |from - {keys[i]}| < |from| && Within(from - {keys[i]}, from)
  {
    hide Moving;
    LiftKeepsMoving(hash, old_, new_, keys, vals, from, to, m, i);
    SwapHand(from, to, m, key, i, keys[i]);
    PlaceKeepsMoving(hash, old_[i := Deleted], new_, keys, vals, from - {keys[i]}, to, m, key, i);
  }

  /** While an entry is in the hand and m has fewer keys than there are new buckets, some new bucket is empty. */
  lemma RoomToPlace<K, V>(hash: K -> U32, old_: seq<Flag>, new_: seq<Flag>, keys: seq<K>, vals: seq<V>,
                          from: map<K, nat>, to: map<K, nat>, m: map<K, V>, key: K, val: V) returns (i: nat)
    requires Moving(hash, old_, new_, keys, vals, from, to, m) && InHand(from, to, m, key, val)
    requires |m| <= |new_|
    ensures i < |new_| && new_[i] == Empty
  {
    Smaller(to, m);
    PositionsCount(new_, keys, to);
    CountNone(new_, Deleted);
    CountSum(new_);
    i := CountWitness(new_, Empty);
  }

  lemma TakeSets<T>(a: set<T>, b: set<T>, y: T)
    requires y in a
    ensures a + b == (a - {y}) + b + {y}
  {
  }

  /** Taking the entry of old bucket j into the hand. */
  lemma TakeKeepsMoving<K, V>(hash: K -> U32, old_: seq<Flag>, new_: seq<Flag>, keys: seq<K>, vals: seq<V>,
                              from: map<K, nat>, to: map<K, nat>, m: map<K, V>, j: nat)
    requires Moving(hash, old_, new_, keys, vals, from, to, m) && m.Keys == from.Keys + to.Keys
    requires j < |old_| <= |keys| && |old_| <= |vals| && old_[j] == Live
    ensures Moving(hash, old_[j := Deleted], new_, keys, vals, from - {keys[j]}, to, m)
    ensures InHand(from - {keys[j]}, to, m, keys[j], vals[j])
    ensures Within(from - {keys[j]}, from) && forall k :: k in from - {keys[j]} ==> from[k] != j
  {
    hide Moving;
    LiftKeepsMoving(hash, old_, new_, keys, vals, from, to, m, j);
    assert (from - {keys[j]}).Keys == from.Keys - {keys[j]};
    TakeSets(from.Keys, to.Keys, keys[j]);
  }

  lemma NotWaitingAt<K, V>(hash: K -> U32, old_: seq<Flag>, new_: seq<Flag>, keys: seq<K>, vals: seq<V>,
                           from: map<K, nat>, to: map<K, nat>, m: map<K, V>, j: nat)
    requires Moving(hash, old_, new_, keys, vals, from, to, m) && j < |old_| && old_[j] != Live
    ensures forall k :: k in from ==> from[k] != j
  {
  }

  /** When nothing waits any more, the new table holds all of m, without tombstones. */
  lemma AllMoved<K, V>(hash: K -> U32, old_: seq<Flag>, new_: seq<Flag>, keys: seq<K>, vals: seq<V>,
                       from: map<K, nat>, to: map<K, nat>, m: map<K, V>)
    requires Moving(hash, old_, new_, keys, vals, from, to, m) && m.Keys == from.Keys + to.Keys
    requires forall k :: k in from ==> from[k] >= |old_|
    ensures Indexed(hash, new_, keys, to) && Carries(vals, to, m) && to.Keys == m.Keys
    ensures Count(new_, Deleted) == 0
  {
    assert from.Keys == {};
    CountNone(new_, Deleted);
  }

  /** Only the entries below the bucket count matter. */
  lemma SamePrefix<K, V>(hash: K -> U32, flags: seq<Flag>, keys: seq<K>, vals: seq<V>, keys': seq<K>, vals': seq<V>,
                         pos: map<K, nat>, m: map<K, V>)
    requires Indexed(hash, flags, keys, pos) && Carries(vals, pos, m)
    requires |flags| <= |keys'| && |flags| <= |vals'| && |flags| <= |vals|
    requires forall i: nat :: i < |flags| ==> keys'[i] == keys[i] && vals'[i] == vals[i]
    ensures Indexed(hash, flags, keys', pos) && Carries(vals', pos, m)
  {
  }

  /** Live buckets are the keys; what is neither live nor a tombstone is empty. */
  lemma IndexedCounts<K>(hash: K -> U32, flags: seq<Flag>, keys: seq<K>, pos: map<K, nat>)
    requires Indexed(hash, flags, keys, pos)
    ensures |pos| + Count(flags, Deleted) + Count(flags, Empty) == |flags|
  {
    PositionsCount(flags, keys, pos);
    CountSum(flags);
  }
}
