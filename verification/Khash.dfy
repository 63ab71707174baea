/** The khash table: open addressing with tombstones, in-place rehash by kicking entries out. */
module Khash {
  import opened Probing
  import opened KhashSizing
  import opened KhashTable

  /** `krealloc`: a block of the new length that keeps the common prefix. */
  method Realloc<T(0)>(a: array<T>, n: nat) returns (b: array<T>)
    ensures fresh(b) && b.Length == n
    ensures forall i :: 0 <= i < n && i < a.Length ==> b[i] == a[i]
  {
    b := new T[n];
    forall i | 0 <= i < n && i < a.Length {
      b[i] := a[i];
    }
  }

  /** The probe loop of `kh_get` and `kh_put`. It stops at the key, at an empty bucket, or when it is back at its start
      (`around`); `site` is the last tombstone it passed, or the bucket count. */
  method Search<K(==)>(hash: K -> U32, flags: array<Flag>, keys: array<K>, key: K, ghost pos: map<K, nat>)
    returns (i: nat, site: nat, around: bool, ghost s: nat)
    requires IsPow2(flags.Length) && flags.Length <= 0x8000_0000 && 0 < flags.Length <= keys.Length
    requires Indexed(hash, flags[..], keys[..], pos)
    ensures i < flags.Length && site <= flags.Length
    ensures !around ==> if key in pos then i == pos[key]
                        else flags[i] == Empty && Reachable(flags[..], hash(key), i)
    ensures around ==> key !in pos && flags[i] != Empty && (site == flags.Length ==> |pos| == flags.Length)
    ensures site < flags.Length ==> flags[site] == Deleted && Reachable(flags[..], hash(key), site)
    ensures key !in pos ==> Ends(flags[..], hash(key), s) && i == Probe(hash(key), s, flags.Length)
    ensures if site == flags.Length then NoTombstone(flags[..], hash(key), s)
            else LastTombstone(flags[..], hash(key), s, site)
  {
    hide IsPow2, Indexed, Reachable, LastTombstone, Path;
    var n := flags.Length;
    ghost var h: nat, fs, ks := hash(key), flags[..], keys[..];
    i := hash(key) % n;
    var last: nat, step: nat := i, 0;
    site, around, s := n, false, 0;
    while flags[i] != Empty && (flags[i] == Deleted || keys[i] != key)
      invariant step < 2 * n - 1 && i == Probe(h, step, n) && site <= n
      invariant Missed(fs, ks, key, h, step)
      invariant site == n ==> forall t: nat :: t < step ==> fs[Probe(h, t, n)] == Live
      invariant site < n ==> fs[site] == Deleted && Reachable(fs, h, site)
      invariant s == step && (site < n ==> LastTombstone(fs, h, step, site))
      decreases 2 * n - step
    {
      TombstoneStep(fs, h, step, site);
      if flags[i] == Deleted {
        site := i;
        MissedIsPath(fs, ks, key, h, step);
      }
      NextProbe(h, step, n);
      step := step + 1;
      s := step;
      i := (i + step) % 0x1_0000_0000 % n;
      if i == last {
        FullRoundMeansAbsent(hash, fs, ks, pos, key, step);
        MissedPath(fs, ks, key, h, step);
        if site == n {
          FullRoundMeansFull(hash, fs, ks, pos, h, step);
        }
        around := true;
        return;
      }
    }
    if flags[i] == Empty {
      EmptyMeansAbsent(hash, fs, ks, pos, key, step);
      MissedPath(fs, ks, key, h, step);
      MissedIsPath(fs, ks, key, h, step);
    } else {
      LiveMeansPresent(hash, fs, ks, pos, i);
    }
  }

  /** The inner loop of the rehash: the first empty bucket on the walk from h. */
  method FirstEmpty(h: U32, flags: array<Flag>, ghost e: nat) returns (i: nat)
    requires IsPow2(flags.Length) && flags.Length <= 0x8000_0000
    requires e < flags.Length && flags[e] == Empty
    ensures i < flags.Length && flags[i] == Empty && Reachable(flags[..], h, i)
  {
    var n := flags.Length;
    ghost var fs := flags[..];
    ghost var end := Coverage(h, e, n);
    i := h % n;
    var step: nat := 0;
    while flags[i] != Empty
      invariant step <= end && i == Probe(h, step, n) && Path(fs, h, step)
      decreases end - step
    {
      NextProbe(h, step, n);
      step := step + 1;
      i := (i + step) % 0x1_0000_0000 % n;
    }
  }

  /** Old flags, new flags and the shared key and value blocks: four different blocks, the last two long enough. */
  ghost predicate Blocks<K, V>(old_: array<Flag>, new_: array<Flag>, keys: array<K>, vals: array<V>) {
    && old_ != new_
    && old_ as object != keys as object && old_ as object != vals as object
    && new_ as object != keys as object && new_ as object != vals as object
    && keys as object != vals as object
    && old_.Length <= keys.Length && new_.Length <= keys.Length
    && old_.Length <= vals.Length && new_.Length <= vals.Length
    && IsPow2(new_.Length) && new_.Length <= 0x8000_0000
  }

  /** The stores of one round: bucket i becomes used in the new table and takes the entry in the hand; an entry that
      waited there comes out and its old bucket is marked deleted. */
  method Land<K, V>(old_: array<Flag>, new_: array<Flag>, keys: array<K>, vals: array<V>, i: nat, key: K, val: V)
    returns (done: bool, k: K, v: V)
    requires Blocks(old_, new_, keys, vals) && i < new_.Length
    modifies old_, new_, keys, vals
    ensures done == !(i < old_.Length && old(old_[i]) == Live)
    ensures old_[..] == if done then old(old_[..]) else old(old_[..])[i := Deleted]
    ensures new_[..] == old(new_[..])[i := Live]
    ensures keys[..] == old(keys[..])[i := key] && vals[..] == old(vals[..])[i := val]
    ensures k == old(keys[i]) && v == old(vals[i])
  {
    hide IsPow2;
    new_[i] := Live;
    k, v := keys[i], vals[i];
    keys[i], vals[i] := key, val;
    done := !(i < old_.Length && old_[i] == Live);
    if !done {
      old_[i] := Deleted;
    }
  }

  /** One round of the kick-out loop: put the entry in the hand into its first empty bucket; if an old entry was waiting
      there, it is in the hand next, and one fewer is waiting. */
  method KickOne<K, V>(hash: K -> U32, old_: array<Flag>, new_: array<Flag>, keys: array<K>, vals: array<V>,
                       key: K, val: V, ghost from0: map<K, nat>, ghost to0: map<K, nat>, ghost m: map<K, V>)
    returns (done: bool, k: K, v: V, ghost from: map<K, nat>, ghost to: map<K, nat>)
    requires Blocks(old_, new_, keys, vals) && |m| <= new_.Length
    requires Moving(hash, old_[..], new_[..], keys[..], vals[..], from0, to0, m) && InHand(from0, to0, m, key, val)
    modifies old_, new_, keys, vals
    ensures Moving(hash, old_[..], new_[..], keys[..], vals[..], from, to, m) && Within(from, from0)
    ensures if done then m.Keys == from.Keys + to.Keys else InHand(from, to, m, k, v) && |from| < |from0|
  {
    hide Moving, InHand, IsPow2;
    ghost var os, ns, ks, vs := old_[..], new_[..], keys[..], vals[..];
    ghost var e := RoomToPlace(hash, os, ns, ks, vs, from0, to0, m, key, val);
    var i := FirstEmpty(hash(key), new_, e);
    done, k, v := Land(old_, new_, keys, vals, i, key, val);
    to := to0[key := i];
    if done {
      from := from0;
      LandKeepsMoving(hash, os, ns, ks, vs, from0, to0, m, key, val, i);
    } else {
      from := from0 - {ks[i]};
      KickKeepsMoving(hash, os, ns, ks, vs, from0, to0, m, key, val, i);
    }
  }

  /** The kick-out loop: it ends with no entry in the hand. */
  method KickLoop<K, V>(hash: K -> U32, old_: array<Flag>, new_: array<Flag>, keys: array<K>, vals: array<V>,
                        key0: K, val0: V, ghost from0: map<K, nat>, ghost to0: map<K, nat>, ghost m: map<K, V>)
    returns (ghost from: map<K, nat>, ghost to: map<K, nat>)
    requires Blocks(old_, new_, keys, vals) && |m| <= new_.Length
    requires Moving(hash, old_[..], new_[..], keys[..], vals[..], from0, to0, m) && InHand(from0, to0, m, key0, val0)
    modifies old_, new_, keys, vals
    ensures Moving(hash, old_[..], new_[..], keys[..], vals[..], from, to, m) && m.Keys == from.Keys + to.Keys
    ensures Within(from, from0)
  {
    hide Moving, InHand, Within, IsPow2;
    var key, val, done := key0, val0, false;
    from, to := from0, to0;
    WithinSelf(from);
    while !done
      invariant Moving(hash, old_[..], new_[..], keys[..], vals[..], from, to, m) && Within(from, from0)
      invariant if done then m.Keys == from.Keys + to.Keys else InHand(from, to, m, key, val)
      decreases !done, |from|
    {
      ghost var was := from;
      done, key, val, from, to := KickOne(hash, old_, new_, keys, vals, key, val, from, to, m);
      WithinStep(from, was, from0);
    }
  }

  lemma WithinSelf<K>(a: map<K, nat>)
    ensures Within(a, a)
  {
  }

  lemma WithinStep<K>(a: map<K, nat>, b: map<K, nat>, c: map<K, nat>)
    requires Within(a, b) && Within(b, c)
    ensures Within(a, c)
  {
  }

  /** The kick-out process for the entry of old bucket j. */
  method KickOut<K, V>(hash: K -> U32, old_: array<Flag>, new_: array<Flag>, keys: array<K>, vals: array<V>, j: nat,
                       ghost from0: map<K, nat>, ghost to0: map<K, nat>, ghost m: map<K, V>)
    returns (ghost from: map<K, nat>, ghost to: map<K, nat>)
    requires Blocks(old_, new_, keys, vals) && |m| <= new_.Length
    requires Moving(hash, old_[..], new_[..], keys[..], vals[..], from0, to0, m) && m.Keys == from0.Keys + to0.Keys
    requires j < old_.Length && old_[j] == Live
    modifies old_, new_, keys, vals
    ensures Moving(hash, old_[..], new_[..], keys[..], vals[..], from, to, m) && m.Keys == from.Keys + to.Keys
    ensures Within(from, from0) && forall k :: k in from ==> from[k] != j
  {
    hide Moving, InHand, IsPow2;
    var key, val := keys[j], vals[j];
    TakeKeepsMoving(hash, old_[..], new_[..], keys[..], vals[..], from0, to0, m, j);
    old_[j] := Deleted;
    assert old_[..] == old(old_[..])[j := Deleted];
    from, to := KickLoop(hash, old_, new_, keys, vals, key, val, from0 - {key}, to0, m);
  }

  /** The rehash loop over all old buckets: the new table ends up with exactly the entries of m. */
  method MoveAll<K, V>(hash: K -> U32, old_: array<Flag>, new_: array<Flag>, keys: array<K>, vals: array<V>,
                       ghost from0: map<K, nat>, ghost m: map<K, V>)
    returns (ghost to: map<K, nat>)
    requires Blocks(old_, new_, keys, vals) && |m| <= new_.Length
    requires Moving(hash, old_[..], new_[..], keys[..], vals[..], from0, map[], m) && m.Keys == from0.Keys
    modifies old_, new_, keys, vals
    ensures Indexed(hash, new_[..], keys[..], to) && Carries(vals[..], to, m) && to.Keys == m.Keys
    ensures Count(new_[..], Deleted) == 0
  {
    hide Moving, IsPow2;
    ghost var from := from0;
    to := map[];
    for j := 0 to old_.Length
      invariant Moving(hash, old_[..], new_[..], keys[..], vals[..], from, to, m) && m.Keys == from.Keys + to.Keys
      invariant forall k :: k in from ==> from[k] >= j
    {
      if old_[j] == Live {
        from, to := KickOut(hash, old_, new_, keys, vals, j, from, to, m);
      } else {
        NotWaitingAt(hash, old_[..], new_[..], keys[..], vals[..], from, to, m, j);
      }
    }
    AllMoved(hash, old_[..], new_[..], keys[..], vals[..], from, to, m);
  }

  class Table<K(0,==), V(0)> {
    const hash: K -> U32
    var nBuckets: nat
    var size: nat
    var nOccupied: nat
    var upperBound: nat
    var flags: array<Flag>
    var keys: array<K>
    var vals: array<V>
    ghost var pos: map<K, nat>

    ghost predicate Separate()
      reads this
    {
      && flags as object != keys as object
      && flags as object != vals as object
      && keys as object != vals as object
    }

    ghost predicate Valid()
      reads this, flags, keys, vals
    {
      && Separate()
      && flags.Length == nBuckets <= keys.Length
      && nBuckets <= vals.Length
      && (nBuckets == 0 || (IsPow2(nBuckets) && 4 <= nBuckets <= 0x8000_0000))
      && upperBound == HashUpper(nBuckets)
      && Indexed(hash, flags[..], keys[..], pos)
      && size == |pos|
      && nOccupied == nBuckets - Count(flags[..], Empty)
    }

    /** The finite map the table stands for. */
    ghost function Contents(): (m: map<K, V>)
      requires Valid()
      reads this, flags, keys, vals
      ensures |m| == size && m.Keys == pos.Keys
    {
      var m := map k | k in pos :: vals[pos[k]];
      assert m.Keys == pos.Keys;
      m
    }

    ghost function Repr(): set<object>
      reads this
    {
      {this, flags, keys, vals}
    }

    constructor (hash: K -> U32)
      ensures Valid() && fresh(Repr()) && this.hash == hash && Contents() == map[] && nBuckets == 0
    {
      this.hash := hash;
      nBuckets, size, nOccupied, upperBound := 0, 0, 0, 0;
      flags, keys, vals := new Flag[0], new K[0], new V[0];
      pos := map[];
    }

    /** `kh_get`: the bucket of the key, or the bucket count when it is absent. Holds for a full table as well. */
    method Get(key: K) returns (x: nat)
      requires Valid()
      ensures x == if key in pos then pos[key] else nBuckets
    {
      if nBuckets == 0 {
        return 0;
      }
      var i, _, around, _ := Search(hash, flags, keys, key, pos);
      if around {
        return nBuckets;
      }
      return if flags[i] != Live then nBuckets else i;
    }

    /** The choice of bucket in `kh_put`: the bucket of the key; else the last tombstone passed, or the empty bucket
        that ended the walk. Only a table with no free bucket at all sends an absent key to a live bucket. */
    method Site(key: K) returns (x: nat)
      requires Valid() && nBuckets > 0
      ensures x < nBuckets
      ensures key in pos ==> x == pos[key]
      ensures key !in pos ==> (flags[x] == Live <==> size == nBuckets)
      ensures key !in pos && flags[x] != Live ==> Reachable(flags[..], hash(key), x)
      ensures key !in pos ==> Chosen(flags[..], hash(key), x)
    {
      hide IsPow2, HashUpper, Count, LastTombstone, Ends, Path, Reachable;
      var i, site, around, s := Search(hash, flags, keys, key, pos);
      if site < nBuckets {
        TombstoneIsOne(flags[..], hash(key), s, site);
      }
      x := nBuckets;
      if around {
        x := site;
      }
      if x == nBuckets {
        if flags[i] == Empty && site != nBuckets {
          x := site;
        } else {
          x := i;
        }
      }
      if |pos| == nBuckets {
        FullMeansLive(flags[..], keys[..], pos, x);
      }
    }

    lemma ContentsCarried()
      requires Valid()
      ensures Carries(vals[..], pos, Contents())
    {
    }

    lemma CarriedIsContents(m: map<K, V>)
      requires Valid() && Carries(vals[..], pos, m) && pos.Keys == m.Keys
      ensures Contents() == m
    {
      assert forall k :: k in pos ==> Contents()[k] == m[k];
    }

    /** The rehash loop on this table's blocks, into a fresh block of n flags. */
    method MoveInto(n: nat, ghost m: map<K, V>) returns (newFlags: array<Flag>, ghost to: map<K, nat>)
      requires Valid() && IsPow2(n) && 4 <= n <= 0x8000_0000 && size < n
      requires n <= keys.Length && n <= vals.Length && m == Contents()
      modifies flags, keys, vals
      ensures fresh(newFlags) && newFlags.Length == n
      ensures Indexed(hash, newFlags[..], keys[..], to) && Carries(vals[..], to, m) && to.Keys == m.Keys
      ensures n == |to| + Count(newFlags[..], Empty) && Count(newFlags[..], Deleted) == 0
    {
      hide Moving, IsPow2, Indexed, Carries, HashUpper, Count;
      newFlags := new Flag[n](_ => Empty);
      assert newFlags[..] == seq(n, _ => Empty);
      ContentsCarried();
      MovingStart(hash, flags[..], n, keys[..], vals[..], pos, m);
      to := MoveAll(hash, flags, newFlags, keys, vals, pos, m);
      IndexedCounts(hash, newFlags[..], keys[..], to);
    }

    lemma BlocksFit()
      requires Valid()
      ensures flags.Length == nBuckets <= keys.Length && nBuckets <= vals.Length
    {
    }

    /** The last stores of a rehash: the new flags become the table's. */
    method Adopt(newFlags: array<Flag>, ghost to: map<K, nat>, ghost m: map<K, V>)
      requires newFlags as object != keys as object && newFlags as object != vals as object
      requires keys as object != vals as object
      requires newFlags.Length <= keys.Length && newFlags.Length <= vals.Length
      requires IsPow2(newFlags.Length) && 4 <= newFlags.Length <= 0x8000_0000
      requires Indexed(hash, newFlags[..], keys[..], to) && Carries(vals[..], to, m) && to.Keys == m.Keys
      requires size == |to| && newFlags.Length == size + Count(newFlags[..], Empty)
      modifies this
      ensures Valid() && Contents() == m && flags == newFlags && keys == old(keys) && vals == old(vals)
      ensures nBuckets == newFlags.Length && nOccupied == size == old(size)
    {
      hide IsPow2, Indexed, Carries, HashUpper, Count;
      flags, nBuckets, nOccupied, upperBound, pos := newFlags, newFlags.Length, size, HashUpper(newFlags.Length), to;
      CarriedIsContents(m);
    }

    /** The two `krealloc`s of a shrinking resize, of which `mem` succeed: what the new flags index stays, unless one
        fails; then the block is gone, which an empty one stands for here. */
    method Trim(newFlags: array<Flag>, mem: nat, ghost to: map<K, nat>, ghost m: map<K, V>)
      requires 0 < newFlags.Length <= keys.Length && newFlags.Length <= vals.Length
      requires Indexed(hash, newFlags[..], keys[..], to) && Carries(vals[..], to, m)
      modifies this
      ensures fresh(keys) && fresh(vals) && keys as object != vals as object
      ensures keys.Length == (if mem >= 1 then newFlags.Length else 0)
      ensures vals.Length == (if mem >= 2 then newFlags.Length else 0)
      ensures mem >= 2 ==> Indexed(hash, newFlags[..], keys[..], to) && Carries(vals[..], to, m)
      ensures flags == old(flags) && nBuckets == old(nBuckets) && size == old(size)
    {
      hide Indexed, Carries;
      ghost var ks, vs := keys[..], vals[..];
      keys := Realloc(keys, if mem >= 1 then newFlags.Length else 0);
      vals := Realloc(vals, if mem >= 2 then newFlags.Length else 0);
      if mem >= 2 {
        SamePrefix(hash, newFlags[..], ks, vs, keys[..], vals[..], to, m);
      }
    }

    /** The last stores of a rehash into a smaller table whose key or value block is gone. */
    method AdoptBroken(newFlags: array<Flag>)
      requires keys.Length < newFlags.Length || vals.Length < newFlags.Length
      modifies this
      ensures !Valid()
    {
      flags, nBuckets, nOccupied, upperBound := newFlags, newFlags.Length, size, HashUpper(newFlags.Length);
    }

    /** The rehash proper, into a table of n buckets. A shrinking one needs two more allocations, and breaks the table
        when they fail. */
    method Rehash(n: nat, mem: nat)
      requires Valid() && IsPow2(n) && 4 <= n <= 0x8000_0000 && size < HashUpper(n)
      requires n <= keys.Length && n <= vals.Length
      modifies this, flags, keys, vals
      ensures Valid() <==> n >= old(nBuckets) || mem >= 2
      ensures Valid() ==> fresh(Repr() - old(Repr())) && Contents() == old(Contents()) && size == old(size)
      ensures Valid() ==> nBuckets == n && nOccupied == size && Count(flags[..], Deleted) == 0
    {
      hide IsPow2, Indexed, Carries, HashUpper, Count;
      ghost var m := Contents();
      HashUpperBelow(n);
      var newFlags, to := MoveInto(n, m);
      assert |to.Keys| == |m.Keys|;
      if nBuckets > n {
        Trim(newFlags, mem, to, m);
        if mem < 2 {
          AdoptBroken(newFlags);
          return;
        }
      }
      Adopt(newFlags, to, m);
    }

    /** The two `krealloc`s of an expanding resize. With mem == 1 the second one fails and keys stays the longer
        block. */
    method Expand(n: nat, mem: nat) returns (ok: bool)
      requires Valid() && nBuckets < n
      modifies this
      ensures Valid() && fresh(Repr() - old(Repr())) && Contents() == old(Contents())
      ensures flags == old(flags) && nBuckets == old(nBuckets) && size == old(size) && pos == old(pos)
      ensures nOccupied == old(nOccupied) && upperBound == old(upperBound) && flags[..] == old(flags[..])
      ensures ok == (mem >= 2) && (ok ==> n <= keys.Length && n <= vals.Length)
    {
      hide IsPow2, Indexed, Carries, HashUpper, Count;
      ghost var m, ks, vs := Contents(), keys[..], vals[..];
      ContentsCarried();
      ok := false;
      if mem >= 1 {
        keys := Realloc(keys, n);
        if mem >= 2 {
          vals := Realloc(vals, n);
          ok := true;
        }
      }
      SamePrefix(hash, flags[..], ks, vs, keys[..], vals[..], pos, m);
      CarriedIsContents(m);
    }

    /** Whether `kh_resize` with so much memory breaks the table: it shrinks, and a block cannot be reallocated. */
    predicate Breaks(request: U32, mem: nat)
      reads this
    {
      size < HashUpper(Target(request)) && Target(request) < nBuckets && 0 < mem < 3
    }

    /** `kh_resize`. The parameter mem is how many of its allocations succeed; three are always enough. It answers 0
        even when it breaks the table. */
    method Resize(request: U32, mem: nat) returns (r: int)
      requires Valid()
      modifies this, flags, keys, vals
      ensures Valid() <==> !old(Breaks(request, mem))
      ensures r == 0 || r == -1
      ensures r == -1 <==>
                old(size) < HashUpper(Target(request)) && mem < (if old(nBuckets) < Target(request) then 3 else 1)
      ensures Valid() ==> fresh(Repr() - old(Repr())) && Contents() == old(Contents()) && size == old(size)
      ensures Valid() && r == 0 && old(size) < HashUpper(Target(request)) ==>
                nBuckets == Target(request) && nOccupied == size && Count(flags[..], Deleted) == 0
      ensures r == -1 || old(size) >= HashUpper(Target(request)) ==>
                && nBuckets == old(nBuckets) && nOccupied == old(nOccupied) && upperBound == old(upperBound)
                && flags == old(flags) && flags[..] == old(flags[..]) && pos == old(pos)
      ensures old(size) >= HashUpper(Target(request)) ==> r == 0 && keys == old(keys) && vals == old(vals)
    {
      hide Table.Valid, Table.Contents, IsPow2, Count, HashUpper, RoundUp32;
      TargetIsTableSize(request);
      BlocksFit();
      var n := KRoundUp32(request);
      if n < 4 {
        n := 4;
      }
      if size >= HashUpper(n) {
        return 0;
      }
      if mem == 0 {
        return -1;
      }
      if nBuckets < n {
        var ok := Expand(n, mem - 1);
        if !ok {
          return -1;
        }
      }
      Rehash(n, mem - 1);
      return 0;
    }

    /** The stores of an insertion: an empty bucket or a tombstone becomes the bucket of an absent key. */
    method Fill(key: K, x: nat)
      requires Valid() && key !in pos && x < nBuckets && flags[x] != Live && Reachable(flags[..], hash(key), x)
      modifies this, flags, keys
      ensures Valid() && flags == old(flags) && keys == old(keys) && vals == old(vals)
      ensures nBuckets == old(nBuckets) && upperBound == old(upperBound) && size == old(size) + 1
      ensures nOccupied == old(nOccupied) + (if old(flags[x]) == Empty then 1 else 0)
      ensures pos == old(pos)[key := x] && Contents() == old(Contents())[key := vals[x]]
    {
      hide IsPow2, Indexed, HashUpper, Reachable, Count;
      ghost var fs, ks := flags[..], keys[..];
      InsertKeepsIndexed(hash, fs, ks, pos, key, x);
      CountUpdate(fs, x, Live, Empty);
      if flags[x] == Empty {
        nOccupied := nOccupied + 1;
      }
      keys[x] := key;
      flags[x] := Live;
      size := size + 1;
      pos := pos[key := x];
      assert flags[..] == fs[x := Live] && keys[..] == ks[x := key];
    }

    /** The insertion half of `kh_put`, after any resize. */
    method Place(key: K) returns (x: nat, ret: nat)
      requires Valid() && nBuckets > 0
      modifies this, flags, keys
      ensures Valid() && Repr() == old(Repr()) && flags == old(flags) && keys == old(keys) && vals == old(vals)
      ensures nBuckets == old(nBuckets) && upperBound == old(upperBound) && x < nBuckets
      ensures ret == 0 <==> key in old(pos) || old(size) == nBuckets
      ensures ret == 0 ==> pos == old(pos) && flags[..] == old(flags[..]) && keys[..] == old(keys[..])
      ensures ret == 0 ==> size == old(size) && nOccupied == old(nOccupied)
      ensures key in old(pos) ==> x == pos[key]
      ensures ret != 0 ==> pos == old(pos)[key := x] && size == old(size) + 1
      ensures ret == 1 ==> old(flags[x]) == Empty && nOccupied == old(nOccupied) + 1
      ensures ret == 2 ==> old(flags[x]) == Deleted && nOccupied == old(nOccupied)
      ensures ret <= 2
      ensures key !in old(pos) ==> Chosen(old(flags[..]), hash(key), x)
      ensures Contents() == if ret == 0 then old(Contents()) else old(Contents())[key := vals[x]]
    {
      hide IsPow2, Indexed, HashUpper, Reachable, Chosen;
      x := Site(key);
      ghost var fs, ks := flags[..], keys[..];
      if key in pos {
        PresentIsLive(hash, fs, ks, pos, key);
      }
      if flags[x] == Live {
        return x, 0;
      }
      ret := if flags[x] == Empty then 1 else 2;
      Fill(key, x);
    }

    /** The request `kh_put` hands to `kh_resize` when the load bound is reached: the same size to clear tombstones when
        fewer than half the buckets are live, otherwise the double. */
    function Request(): U32
      requires nBuckets <= 0x8000_0000
      reads this
    {
      if nBuckets > 2 * size % 0x1_0000_0000 then nBuckets - 1 else nBuckets + 1
    }

    /** Whether the next `kh_put` rebuilds the table: the load bound is reached and the size asked for has room. */
    predicate Grows()
      requires nBuckets <= 0x8000_0000
      reads this
    {
      nOccupied >= upperBound && size < HashUpper(Target(Request()))
    }

    /** Whether the next `kh_put` keeps the load bound: a caller can test this beforehand. */
    predicate HasRoom()
      requires nBuckets <= 0x8000_0000
      reads this
    {
      nOccupied < upperBound || size < HashUpper(Target(Request()))
    }

    lemma SizeBounds()
      requires Valid()
      ensures size <= nOccupied <= nBuckets
      ensures nBuckets > 0 ==> upperBound < nBuckets
      ensures nBuckets == 0 ==> size == nOccupied == upperBound == 0 && Request() == 1 && HashUpper(Target(1)) == 3
    {
      IndexedCounts(hash, flags[..], keys[..], pos);
      if nBuckets == 0 {
        TargetOfOne();
      } else {
        HashUpperBelow(nBuckets);
      }
    }

    /** The resize that `kh_put` asks for never makes the table smaller. */
    lemma PutNeverShrinks()
      requires Valid() && size < HashUpper(Target(Request()))
      ensures nBuckets <= Target(Request())
    {
      hide HashUpper, Indexed, Count;
      SizeBounds();
      if nBuckets == 0x8000_0000 {
        LargestTargets();
      } else if nBuckets > 0 {
        HalfLargest(nBuckets);
        PutTargets(nBuckets);
      }
    }

    /** What the resize of `kh_put` aims at, in numbers. */
    lemma RequestIs()
      requires Valid() && nBuckets <= 0x4000_0000
      ensures Target(Request()) == if nBuckets == 0 then 4 else if 2 * size < nBuckets then nBuckets else 2 * nBuckets
    {
      hide HashUpper, Indexed, Count, IsPow2, Target;
      SizeBounds();
      if nBuckets == 0 {
        TargetOfOne();
      } else {
        PutTargets(nBuckets);
      }
    }

    /** The first half of `kh_put`: at the load bound the table is resized, if the size asked for has room. */
    method Grow(mem: nat) returns (ok: bool)
      requires Valid()
      modifies this, flags, keys, vals
      ensures Valid() && fresh(Repr() - old(Repr())) && Contents() == old(Contents()) && size == old(size)
      ensures ok <==> !(old(Grows()) && mem < (if old(nBuckets) < Target(old(Request())) then 3 else 1))
      ensures !ok || !old(Grows()) ==>
                && nBuckets == old(nBuckets) && nOccupied == old(nOccupied) && upperBound == old(upperBound)
                && flags == old(flags) && flags[..] == old(flags[..]) && pos == old(pos)
      ensures ok && old(Grows()) ==> nBuckets == Target(old(Request())) && nOccupied == size
      ensures ok ==> size <= nOccupied && upperBound < nBuckets == flags.Length && upperBound == HashUpper(nBuckets)
    {
      hide IsPow2, Indexed, HashUpper, Target, Count;
      SizeBounds();
      ok := true;
      if nOccupied >= upperBound {
        if size < HashUpper(Target(Request())) {
          PutNeverShrinks();
        }
        var r := Resize(Request(), mem);
        ok := r >= 0;
      }
      SizeBounds();
    }

    /** `kh_put`. An absent key is inserted unless memory runs out or no bucket is free and none can be made; then, and
        only then, the code answers 0 with a bucket of another key. With HasRoom the load bound is kept as well. */
    method Put(key: K, mem: nat) returns (x: nat, ret: int)
      requires Valid()
      modifies this, flags, keys, vals
      ensures Valid() && fresh(Repr() - old(Repr()))
      ensures -1 <= ret <= 2
      ensures ret == -1 <==> old(Grows()) && mem < (if old(nBuckets) < Target(old(Request())) then 3 else 1)
      ensures ret == -1 ==>
                x == nBuckets == old(nBuckets) && nOccupied == old(nOccupied) && upperBound == old(upperBound)
      ensures ret >= 1 ==> key !in old(Contents())
      ensures ret == 0 && key !in old(Contents()) ==> size == nBuckets
      ensures ret != -1 ==> upperBound < nBuckets
      ensures ret != -1 ==>
                (nOccupied <= upperBound <==> old(HasRoom()) || (old(nOccupied) <= old(upperBound) && ret != 1))
      ensures ret != -1 ==>
                ((ret == 0 <==> key in old(Contents())) <==>
                 (key in old(Contents()) || old(HasRoom()) || old(size) < old(nBuckets)))
      ensures ret >= 0 && (ret == 0 ==> key in old(Contents())) ==> key in pos && x == pos[key]
      ensures ret == 1 && !old(Grows()) ==> x < old(flags).Length && old(flags[x]) == Empty
      ensures ret == 2 ==> !old(Grows()) && x < old(flags).Length && old(flags[x]) == Deleted
      ensures ret >= 0 && key !in old(Contents()) && !old(Grows()) ==>
                old(flags).Length > 0 && Chosen(old(flags[..]), hash(key), x)
      ensures Contents() == if ret >= 1 then old(Contents())[key := vals[x]] else old(Contents())
      ensures ret != -1 ==> nBuckets == if old(Grows()) then Target(old(Request())) else old(nBuckets)
      ensures ret != -1 ==> size == old(size) + (if ret == 0 then 0 else 1)
      ensures ret != -1 ==>
                nOccupied - size == (if old(Grows()) then 0 else old(nOccupied - size)) - (if ret == 2 then 1 else 0)
    {
      hide Table.Valid, Table.Contents, HashUpper, Target, Chosen;
      var ok := Grow(mem);
      if !ok {
        return nBuckets, -1;
      }
      x, ret := Place(key);
      SizeBounds();
    }

    /** `kh_val(h, x) = v` on a bucket handed out for a key. */
    method SetVal(x: nat, v: V)
      requires Valid() && x < nBuckets && flags[x] == Live
      modifies vals
      ensures Valid() && keys[x] == old(keys[x]) && keys[x] in pos
      ensures Contents() == old(Contents())[keys[x] := v]
      ensures vals[..] == old(vals[..])[x := v]
    {
      hide IsPow2, HashUpper, Count;
      ghost var k := keys[x];
      vals[x] := v;
      assert Contents() == old(Contents())[k := v];
    }

    /** `kh_del`: the bucket becomes a tombstone, and everything else stays reachable. */
    method Del(x: nat)
      requires Valid() && x <= nBuckets
      modifies this, flags
      ensures Valid() && Repr() == old(Repr()) && flags == old(flags) && keys == old(keys) && vals == old(vals)
      ensures nBuckets == old(nBuckets) && nOccupied == old(nOccupied) && upperBound == old(upperBound)
      ensures Contents() == if x < nBuckets && old(flags[x]) == Live then old(Contents()) - {keys[x]}
                            else old(Contents())
    {
      hide IsPow2, Indexed, HashUpper, Count, Reachable;
      if x != nBuckets && flags[x] == Live {
        ghost var fs, ks, k := flags[..], keys[..], keys[x];
        LiveMeansPresent(hash, fs, ks, pos, x);
        DeleteKeepsIndexed(hash, fs, ks, pos, x);
        CountUpdate(fs, x, Deleted, Empty);
        flags[x] := Deleted;
        size := size - 1;
        ghost var pos' := pos - {k};
        assert pos.Keys == pos'.Keys + {k};
        assert |pos.Keys| == |pos'.Keys| + 1;
        pos := pos';
        assert flags[..] == fs[x := Deleted];
        assert Contents() == old(Contents()) - {k};
      }
    }

    /** `kh_clear`. */
    method Clear()
      requires Valid()
      modifies this, flags
      ensures Valid() && Repr() == old(Repr()) && Contents() == map[]
      ensures nBuckets == old(nBuckets) && nOccupied == 0 && upperBound == old(upperBound)
    {
      hide IsPow2, HashUpper;
      forall i | 0 <= i < nBuckets {
        flags[i] := Empty;
      }
      size, nOccupied := 0, 0;
      pos := map[];
      CountConstant(flags[..], Empty);
    }

    /** Below 72477573 entries the growth of a table never meets the wrap of the load bound. */
    lemma RoomWhenSmall()
      requires Valid() && nBuckets <= 0x1000_0000 && size < 72477573
      ensures HasRoom() && Target(Request()) <= 0x1000_0000
    {
      hide IsPow2, HashUpper, Target, Indexed, Count;
      SizeBounds();
      if nBuckets == 0 {
        TargetOfOne();
      } else {
        GrowthHasRoom(nBuckets, size);
      }
    }

    /** The bound is sharp: at 2^28 buckets, 72477573 keys reach the load bound and nothing makes room. */
    lemma LoadAtWrap()
      requires Valid() && nBuckets == 0x1000_0000 && size == 72477573
      ensures !HasRoom()
    {
      hide IsPow2, HashUpper, Target, Indexed, Count;
      SizeBounds();
      HashUpperLarge();
      PutTargets(nBuckets);
    }

    /** Below 2^27 keys there is a free bucket for the next one, or the growth that `kh_put` asks for makes one. */
    lemma RoomOrFree()
      requires Valid() && size < 0x800_0000
      ensures HasRoom() || size < nBuckets
    {
      hide IsPow2, HashUpper, Target, Indexed, Count;
      SizeBounds();
      if nBuckets > 0 && size == nBuckets {
        DoubleFits(nBuckets);
        PutTargets(nBuckets);
        Pow2Double(nBuckets);
        HashUpperExact(2 * nBuckets);
      }
    }

    /** The bound is sharp: at 2^27 keys in as many buckets neither is the case, so `kh_put` misreports absent keys. */
    lemma FullAtWrap()
      requires Valid() && size == nBuckets == 0x800_0000
      ensures !HasRoom() && !(size < nBuckets)
    {
      hide IsPow2, HashUpper, Target, Indexed, Count;
      SizeBounds();
      GrowthAtWrap(size);
    }

    /** A table of 2^27 buckets without tombstones never grows again. */
    lemma StuckAtWrap()
      requires Valid() && size == nOccupied && nBuckets == 0x800_0000
      ensures !Grows()
    {
      hide IsPow2, HashUpper, Target, Indexed, Count;
      if Grows() {
        GrowthAtWrap(size);
      }
    }

    /** The bucket of a present key is live, holds the key, and its value is what the map says. */
    lemma PresentBucket(k: K)
      requires Valid()
      ensures k in pos ==>
                && pos[k] < nBuckets && flags[pos[k]] == Live && keys[pos[k]] == k
                && vals[pos[k]] == Contents()[k]
    {
    }
  }
}
