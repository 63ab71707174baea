/** The pool of w_iovs: allocation by length or by count, and giving back. */
module IovPool {
  import opened TailQueue

  // ----- how a byte count is cut into buffers

  /** The payload length a fresh w_iov gets: the requested one, or what is left of the buffer, in 16-bit arithmetic. */
  function FullLen(mtu: nat, len: nat, off: nat, hdr: nat): nat {
    if len != 0 then len else (mtu - (off + hdr)) % 0x1_0000
  }

  /** The lengths `w_alloc_len` hands out for n bytes from a pool of p w_iovs. */
  function Chunks(n: nat, full: nat, p: nat): seq<nat>
    decreases p
  {
    if n == 0 || p == 0 then []
    else if n > full then [full] + Chunks(n - full, full, p - 1)
    else [n]
  }

  function Sum(s: seq<nat>): nat {
    if |s| == 0 then 0 else s[0] + Sum(s[1..])
  }

  /** Every length but the last is full, and none is larger. */
  lemma {:induction false} ChunksFull(n: nat, full: nat, p: nat)
    ensures |Chunks(n, full, p)| <= p
    ensures forall i :: 0 <= i < |Chunks(n, full, p)| - 1 ==> Chunks(n, full, p)[i] == full
    ensures forall i :: 0 <= i < |Chunks(n, full, p)| ==> Chunks(n, full, p)[i] <= full
    decreases p
  {
    if n > full && p > 0 {
      ChunksFull(n - full, full, p - 1);
    }
  }

  /** What p w_iovs can hold. */
  function Room(full: nat, p: nat): nat { full * p }

  lemma RoomIs(full: nat, p: nat)
    ensures Room(full, p) == full * p
  {
  }

  lemma RoomStep(full: nat, p: nat)
    ensures Room(full, 0) == 0 && Room(full, p + 1) == full + Room(full, p)
  {
  }

  /** The lengths add up to the request, or to all the pool can hold if that is less; then the whole pool is used. */
  lemma {:induction false} ChunksSum(n: nat, full: nat, p: nat)
    ensures Sum(Chunks(n, full, p)) == if n <= Room(full, p) then n else Room(full, p)
    ensures n > Room(full, p) ==> |Chunks(n, full, p)| == p
    decreases p
  {
    hide Room;
    if p == 0 {
      RoomStep(full, 0);
    } else if n > 0 {
      RoomStep(full, p - 1);
      if n > full {
        ChunksSum(n - full, full, p - 1);
        assert Chunks(n, full, p)[1..] == Chunks(n - full, full, p - 1);
      } else {
        assert Chunks(n, full, p)[1..] == [];
      }
    }
  }

  /** A smaller pool gives a prefix of what a larger one gives. */
  lemma {:induction false} ChunksPrefix(n: nat, full: nat, p: nat, p': nat)
    requires p <= p'
    ensures Chunks(n, full, p) <= Chunks(n, full, p')
    decreases p
  {
    if n > full && p > 0 {
      ChunksPrefix(n - full, full, p - 1, p' - 1);
    }
  }

  /** Where headers and offset fit the buffer, a fresh w_iov has the length asked for, or the whole rest of the
      buffer. */
  lemma FullLenIs(mtu: nat, len: nat, off: nat, hdr: nat)
    requires off + hdr <= mtu < 0x1_0000
    ensures len == 0 ==> off + hdr + FullLen(mtu, len, off, hdr) == mtu
    ensures len != 0 ==> FullLen(mtu, len, off, hdr) == len
  {
  }

  /** Offset and requested length fit the buffer. */
  predicate InRange(mtu: nat, len: nat, off: nat, hdr: nat) {
    off + hdr <= mtu && len <= mtu - (off + hdr)
  }

  lemma FullWithin(mtu: nat, len: nat, off: nat, hdr: nat)
    requires InRange(mtu, len, off, hdr)
    ensures off + hdr + FullLen(mtu, len, off, hdr) <= mtu
  {
  }

  lemma ChunksWithin(mtu: nat, len: nat, off: nat, hdr: nat, n: nat, p: nat)
    ensures InRange(mtu, len, off, hdr) ==>
              var lens := Chunks(n, FullLen(mtu, len, off, hdr), p);
              forall i :: 0 <= i < |lens| ==> off + hdr + lens[i] <= mtu
    ensures off + hdr <= mtu < 0x1_0000 ==>
              var lens := Chunks(n, FullLen(mtu, len, off, hdr), p);
              forall i :: 0 <= i < |lens| - 1 ==> if len == 0 then off + hdr + lens[i] == mtu else lens[i] == len
  {
    hide FullLen, Chunks;
    ChunksFull(n, FullLen(mtu, len, off, hdr), p);
    if InRange(mtu, len, off, hdr) {
      FullWithin(mtu, len, off, hdr);
    }
    if off + hdr <= mtu < 0x1_0000 {
      FullLenIs(mtu, len, off, hdr);
    }
  }

  /** A fresh w_iov stays within its buffer exactly when offset and requested length were in range. */
  lemma WithinBuffer(mtu: nat, len: nat, off: nat, hdr: nat)
    requires mtu < 0x1_0000 && off + hdr < 0x1_0000
    ensures off + hdr + FullLen(mtu, len, off, hdr) <= mtu <==> InRange(mtu, len, off, hdr)
  {
  }

  // ----- allocation

  /** `w_alloc_iov_base`: the head of the pool, reset to the whole buffer. */
  method AllocIovBase(pool: Queue, mtu: nat) returns (v: Elem?)
    requires pool.Valid()
    modifies pool, pool.elems
    ensures pool.Valid()
    ensures |old(pool.elems)| == 0 ==> v == null && pool.elems == []
    ensures |old(pool.elems)| > 0 ==>
              && v == old(pool.elems)[0] && pool.elems == old(pool.elems)[1..]
              && v.off == 0 && v.len == mtu && v.next == null
    ensures forall e :: e in old(pool.elems) && e != v ==> e.off == old(e.off) && e.len == old(e.len)
  {
    v := pool.first;
    if v != null {
      pool.RemoveHead();
      v.off, v.len, v.next := 0, mtu, null;
    }
  }

  /** `w_alloc_iov`: leave room for headers and offset, and set the payload length. */
  method AllocIov(pool: Queue, mtu: nat, hdr: nat, len: nat, off: nat) returns (v: Elem?)
    requires pool.Valid()
    modifies pool, pool.elems
    ensures pool.Valid()
    ensures |old(pool.elems)| == 0 ==> v == null && pool.elems == []
    ensures |old(pool.elems)| > 0 ==>
              && v == old(pool.elems)[0] && pool.elems == old(pool.elems)[1..]
              && v.off == off + hdr && v.len == FullLen(mtu, len, off, hdr) && v.next == null
    ensures v != null && off + hdr <= mtu < 0x1_0000 ==> if len == 0 then v.off + v.len == mtu else v.len == len
    ensures forall e :: e in old(pool.elems) && e != v ==> e.off == old(e.off) && e.len == old(e.len)
  {
    v := AllocIovBase(pool, mtu);
    if v != null {
      v.off := v.off + off + hdr;
      v.len := if len != 0 then len else (v.len - (off + hdr)) % 0x1_0000;
    }
  }

  /** `w_iov_sq_len`. */
  method SqLen(q: Queue) returns (l: nat)
    requires q.Valid()
    ensures l == Sum(Lens(q.elems))
  {
    l := 0;
    var v := q.first;
    ghost var i := 0;
    assert Lens(q.elems)[0..] == Lens(q.elems);
    while v != null
      invariant 0 <= i <= |q.elems| && v == (if i < |q.elems| then q.elems[i] else null)
      invariant l + Sum(Lens(q.elems)[i..]) == Sum(Lens(q.elems))
      decreases |q.elems| - i
    {
      assert Lens(q.elems)[i..][1..] == Lens(q.elems)[i + 1..];
      l := l + v.len;
      v := v.next;
      i := i + 1;
    }
  }

  ghost function Lens(s: seq<Elem>): seq<nat>
    reads s
  {
    seq(|s|, i requires 0 <= i < |s| reads s => s[i].len)
  }

  /** What an allocation moves: the first k w_iovs of the pool go to the end of the queue. */
  ghost predicate Moved(pool: Queue, q: Queue, p0: seq<Elem>, q0: seq<Elem>, k: nat)
    reads pool, q, pool.elems, q.elems
  {
    && pool != q && pool.Valid() && q.Valid() && k <= |p0|
    && pool.elems == p0[k..] && q.elems == q0 + p0[..k]
  }

  lemma MovedNothing(pool: Queue, q: Queue)
    requires pool != q && pool.Valid() && q.Valid()
    ensures Moved(pool, q, pool.elems, q.elems, 0) && Unique(pool.elems)
  {
  }

  /** One more w_iov moves, unless the pool is dry. */
  method MoveOne(pool: Queue, q: Queue, mtu: nat, hdr: nat, len: nat, off: nat,
                 ghost p0: seq<Elem>, ghost q0: seq<Elem>, ghost k: nat) returns (v: Elem?)
    requires Moved(pool, q, p0, q0, k) && Unique(p0) && Apart(p0, q0)
    modifies pool, q, pool.elems, q.elems`next
    ensures v == null <==> k == |p0|
    ensures v == null ==> Moved(pool, q, p0, q0, k)
    ensures v != null ==> k < |p0| && Moved(pool, q, p0, q0, k + 1) && v == p0[k]
    ensures v != null ==> v.off == off + hdr && v.len == FullLen(mtu, len, off, hdr)
    ensures forall i :: 0 <= i < |p0| && p0[i] != v ==> p0[i].off == old(p0[i].off) && p0[i].len == old(p0[i].len)
  {
    hide Queue.Valid, Apart, FullLen;
    NotYetMoved(p0, q0, k);
    v := AllocIov(pool, mtu, hdr, len, off);
    Untouched(q);
    label Taken:
    if v != null {
      NotYetMoved(p0, q0, k + 1);
      assert pool.elems == p0[k + 1..] && q0 + p0[..k + 1] == q.elems + [v];
      q.InsertTail(v);
      Untouched@Taken(pool);
    }
  }

  /** The w_iovs of the pool are not in the queue. */
  lemma NotYetMoved(p0: seq<Elem>, q0: seq<Elem>, k: nat)
    requires Unique(p0) && Apart(p0, q0)
    ensures k <= |p0| ==> forall e :: e in p0[k..] ==> e !in q0 + p0[..k]
  {
  }

  lemma ValidUnique(q: Queue)
    requires q.Valid()
    ensures Unique(q.elems)
  {
  }

  /** Shortening the last w_iov. */
  method Shorten(pool: Queue, q: Queue, v: Elem, n: nat, ghost p0: seq<Elem>, ghost q0: seq<Elem>, ghost k: nat)
    requires Moved(pool, q, p0, q0, k)
    modifies v`len
    ensures Moved(pool, q, p0, q0, k) && v.len == n
  {
    v.len := n;
  }

  lemma ChunksStep(lens: seq<nat>, k: nat, needed: nat, full: nat, p: nat)
    requires k <= |lens| && lens[k..] == Chunks(needed, full, p)
    ensures needed == 0 || p == 0 ==> k == |lens|
    ensures needed > 0 && p > 0 ==>
              && k < |lens| && lens[k] == (if needed > full then full else needed)
              && lens[k + 1..] == Chunks(if needed > full then needed - full else 0, full, p - 1)
  {
    if k < |lens| {
      assert lens[k..][1..] == lens[k + 1..] && lens[k] == lens[k..][0];
    }
  }

  /** One round of `w_alloc_len`: the next w_iov comes over with the next length, or the pool is dry. */
  method TakeChunk(pool: Queue, q: Queue, mtu: nat, hdr: nat, len: nat, off: nat, needed: nat,
                   ghost p0: seq<Elem>, ghost q0: seq<Elem>, ghost k: nat, ghost lens: seq<nat>)
    returns (v: Elem?, needed': nat)
    requires Moved(pool, q, p0, q0, k) && Unique(p0) && Apart(p0, q0) && needed > 0
    requires k <= |p0| && k <= |lens| && lens[k..] == Chunks(needed, FullLen(mtu, len, off, hdr), |p0| - k)
    modifies pool, q, pool.elems, q.elems`next
    ensures v == null ==> k == |lens| && Moved(pool, q, p0, q0, k)
    ensures v != null ==> k < |p0| && k < |lens| && v == p0[k] && Moved(pool, q, p0, q0, k + 1)
    ensures v != null ==> lens[k + 1..] == Chunks(needed', FullLen(mtu, len, off, hdr), |p0| - k - 1)
    ensures v != null ==> v.len == lens[k] && v.off == off + hdr
    ensures forall i :: 0 <= i < |p0| && p0[i] != v ==> p0[i].off == old(p0[i].off) && p0[i].len == old(p0[i].len)
  {
    hide Chunks, FullLen, Moved, Apart, Unique;
    ChunksStep(lens, k, needed, FullLen(mtu, len, off, hdr), |p0| - k);
    MovedParts(pool, q, p0, q0, k);
    assert k < |p0| ==> p0[k] == pool.elems[0];
    needed' := 0;
    v := MoveOne(pool, q, mtu, hdr, len, off, p0, q0, k);
    if v != null {
      if needed > v.len {
        needed' := needed - v.len;
      } else {
        Shorten(pool, q, v, needed, p0, q0, k + 1);
      }
    }
  }

  /** `w_alloc_len`: w_iovs move from the pool to the queue until the request is covered or the pool is dry. They
      come in pool order, with the lengths of Chunks; what was in the queue before keeps its payload window. */
  method AllocLen(pool: Queue, q: Queue, mtu: nat, hdr: nat, qlen: nat, len: nat, off: nat)
    requires pool != q && pool.Valid() && q.Valid() && Apart(pool.elems, q.elems)
    modifies pool, q, pool.elems, q.elems`next
    ensures var lens := Chunks(qlen, FullLen(mtu, len, off, hdr), |old(pool.elems)|);
            && Moved(pool, q, old(pool.elems), old(q.elems), |lens|)
            && forall i :: 0 <= i < |lens| ==> old(pool.elems)[i].len == lens[i] && old(pool.elems)[i].off == off + hdr
    ensures off + hdr <= mtu < 0x1_0000 ==>
              forall i :: |old(q.elems)| <= i < |q.elems| - 1 ==>
                if len == 0 then q.elems[i].off + q.elems[i].len == mtu else q.elems[i].len == len
    ensures InRange(mtu, len, off, hdr) ==>
              forall v :: v in q.elems && v !in old(q.elems) ==> v.off + v.len <= mtu
  {
    hide Chunks, FullLen, Moved, Apart, Unique, Queue.Valid;
    ghost var p0, q0, full := pool.elems, q.elems, FullLen(mtu, len, off, hdr);
    ghost var lens := Chunks(qlen, full, |p0|);
    ghost var k: nat := 0;
    var needed: nat := qlen;
    MovedNothing(pool, q);
    assert lens[0..] == lens;
    while needed > 0
      invariant k <= |p0| && Moved(pool, q, p0, q0, k) && pool.elems == p0[k..] && q.elems == q0 + p0[..k]
      invariant k <= |lens| && lens[k..] == Chunks(needed, full, |p0| - k)
      invariant forall i :: 0 <= i < k ==> p0[i].len == lens[i] && p0[i].off == off + hdr
      decreases |p0| - k
    {
      var v, rest := TakeChunk(pool, q, mtu, hdr, len, off, needed, p0, q0, k, lens);
      if v == null {
        ChunksWithin(mtu, len, off, hdr, qlen, |p0|);
        MovedParts(pool, q, p0, q0, k);
        return;
      }
      k, needed := k + 1, rest;
      MovedParts(pool, q, p0, q0, k);
    }
    ChunksStep(lens, k, needed, full, |p0| - k);
    ChunksWithin(mtu, len, off, hdr, qlen, |p0|);
  }

  lemma MovedParts(pool: Queue, q: Queue, p0: seq<Elem>, q0: seq<Elem>, k: nat)
    requires Moved(pool, q, p0, q0, k)
    ensures k <= |p0| && pool.elems == p0[k..] && q.elems == q0 + p0[..k]
  {
  }

  /** Allocating into an empty queue and measuring it: the payload lengths sum to exactly the request if the pool
      can hold it, otherwise to all the pool can hold. */
  method AllocMeasured(pool: Queue, q: Queue, mtu: nat, hdr: nat, qlen: nat, len: nat, off: nat) returns (l: nat)
    requires pool != q && pool.Valid() && q.Valid() && q.elems == []
    modifies pool, q, pool.elems
    ensures var room := Room(FullLen(mtu, len, off, hdr), |old(pool.elems)|);
            l == if qlen <= room then qlen else room
    ensures off + hdr <= mtu < 0x1_0000 ==>
              var room := (if len == 0 then mtu - off - hdr else len) * |old(pool.elems)|;
              l == if qlen <= room then qlen else room
  {
    hide Chunks, FullLen, Room;
    if off + hdr <= mtu < 0x1_0000 {
      FullLenIs(mtu, len, off, hdr);
      RoomIs(FullLen(mtu, len, off, hdr), |pool.elems|);
    }
    ghost var p0, full := pool.elems, FullLen(mtu, len, off, hdr);
    AllocLen(pool, q, mtu, hdr, qlen, len, off);
    l := SqLen(q);
    assert Lens(q.elems) == Chunks(qlen, full, |p0|);
    ChunksSum(qlen, full, |p0|);
  }

  /** `w_alloc_cnt`: count w_iovs, or as many as the pool has. */
  method AllocCnt(pool: Queue, q: Queue, mtu: nat, hdr: nat, count: nat, len: nat, off: nat)
    requires pool != q && pool.Valid() && q.Valid() && Apart(pool.elems, q.elems)
    modifies pool, q, pool.elems, q.elems`next
    ensures var n := if count <= |old(pool.elems)| then count else |old(pool.elems)|;
            && Moved(pool, q, old(pool.elems), old(q.elems), n)
            && forall i :: 0 <= i < n ==>
                 old(pool.elems)[i].len == FullLen(mtu, len, off, hdr) && old(pool.elems)[i].off == off + hdr
    ensures off + hdr <= mtu < 0x1_0000 ==>
              forall i :: |old(q.elems)| <= i < |q.elems| ==>
                if len == 0 then q.elems[i].off + q.elems[i].len == mtu else q.elems[i].len == len
    ensures InRange(mtu, len, off, hdr) ==>
              forall v :: v in q.elems && v !in old(q.elems) ==> v.off + v.len <= mtu
  {
    hide Queue.Valid, FullLen, Moved, Apart, Unique;
    if off + hdr <= mtu < 0x1_0000 {
      FullLenIs(mtu, len, off, hdr);
    }
    if InRange(mtu, len, off, hdr) {
      FullWithin(mtu, len, off, hdr);
    }
    ghost var p0, q0 := pool.elems, q.elems;
    MovedNothing(pool, q);
    for k := 0 to count
      invariant k <= |p0| && Moved(pool, q, p0, q0, k) && pool.elems == p0[k..] && q.elems == q0 + p0[..k]
      invariant forall i :: 0 <= i < k ==> p0[i].len == FullLen(mtu, len, off, hdr) && p0[i].off == off + hdr
    {
      var v := MoveOne(pool, q, mtu, hdr, len, off, p0, q0, k);
      if v == null {
        MovedParts(pool, q, p0, q0, k);
        return;
      }
      MovedParts(pool, q, p0, q0, k + 1);
    }
  }

  /** `w_free`: the queue goes to the end of the pool. */
  method FreeQueue(pool: Queue, q: Queue)
    requires pool != q && pool.Valid() && q.Valid() && Apart(pool.elems, q.elems)
    modifies pool, q, pool.elems`next
    ensures pool.Valid() && q.Valid() && q.elems == [] && pool.elems == old(pool.elems) + old(q.elems)
  {
    if q.first == null {
      return;
    }
    pool.Concat(q);
  }

  /** `w_free_iov`: a single, unlinked w_iov goes to the front of the pool. */
  method FreeIov(pool: Queue, v: Elem)
    requires pool.Valid() && v !in pool.elems && v.next == null
    modifies pool, v`next
    ensures pool.Valid() && pool.elems == [v] + old(pool.elems)
  {
    pool.InsertHead(v);
  }

  // ----- runs

  /** All w_iovs of all queues, counted. */
  ghost function Total(s: seq<seq<Elem>>): multiset<Elem> {
    if |s| == 0 then multiset{} else Total(s[..|s| - 1]) + multiset(s[|s| - 1])
  }

  /** Queue 0 is the pool; the others are outstanding, and so are single w_iovs, of which GiveIov gives back the
      i-th. */
  datatype PoolOp =
    | TakeLen(q: nat, qlen: nat, len: nat, off: nat, hdr: nat)
    | TakeCnt(q: nat, count: nat, len: nat, off: nat, hdr: nat)
    | GiveQueue(q: nat)
    | TakeIov(len: nat, off: nat, hdr: nat)
    | GiveIov(i: nat)

  lemma {:induction false} TotalUpdate(s: seq<seq<Elem>>, i: nat, q: seq<Elem>)
    requires i < |s|
    ensures Total(s[i := q]) + multiset(s[i]) == Total(s) + multiset(q)
  {
    var last := |s| - 1;
    if i == last {
      assert s[i := q][..last] == s[..last];
    } else {
      var rest := s[..last];
      assert s[i := q][..last] == rest[i := q];
      TotalUpdate(rest, i, q);
      AddBoth(Total(rest[i := q]), multiset(rest[i]), Total(rest), multiset(q), multiset(s[last]));
    }
  }

  lemma AddBoth<T>(a: multiset<T>, b: multiset<T>, c: multiset<T>, d: multiset<T>, e: multiset<T>)
    requires a + b == c + d
    ensures (a + e) + b == (c + e) + d
  {
    assert (a + e) + b == (a + b) + e;
    assert (c + e) + d == (c + d) + e;
  }

  lemma Cancel<T>(a: multiset<T>, b: multiset<T>, c: multiset<T>)
    requires a + c == b + c
    ensures a == b
  {
    assert a == (a + c) - c;
  }

  /** Moving a prefix of one queue to the end of another keeps every w_iov exactly once. */
  lemma MoveKeepsTotal(s: seq<seq<Elem>>, a: nat, b: nat, k: nat)
    requires a < |s| && b < |s| && a != b && k <= |s[a]|
    ensures Total(Shifted(s, a, b, k)) == Total(s)
  {
    var pre, suf := s[a][..k], s[a][k..];
    var s1 := s[a := suf];
    var s2 := s1[b := s[b] + pre];
    assert s[a] == pre + suf;
    TotalUpdate(s, a, suf);
    TotalUpdate(s1, b, s[b] + pre);
    assert Total(s2) + multiset(s[b]) == (Total(s1) + multiset(pre)) + multiset(s[b]);
    Cancel(Total(s2), Total(s1) + multiset(pre), multiset(s[b]));
    assert Total(s2) + multiset(suf) == Total(s1) + multiset(s[a]) == Total(s) + multiset(suf);
    Cancel(Total(s2), Total(s), multiset(suf));
  }

  /** All queues stay disjoint when a prefix moves from queue a to queue b and the others are as they were. */
  lemma MoveKeepsWorld(qs: seq<Queue>, s: seq<seq<Elem>>, a: nat, b: nat, k: nat)
    requires |qs| == |s| && a < |s| && b < |s| && a != b && k <= |s[a]| && Unique(s[a])
    requires forall i, j :: 0 <= i < j < |qs| ==> qs[i] != qs[j]
    requires forall i, j :: 0 <= i < |s| && 0 <= j < |s| && i != j ==> Apart(s[i], s[j])
    requires forall i :: 0 <= i < |qs| ==> qs[i].Valid() && qs[i].elems == Shifted(s, a, b, k)[i]
    ensures World(qs) && Contents(qs) == Shifted(s, a, b, k)
  {
    forall i, j | 0 <= i < |qs| && 0 <= j < |qs| && i != j
      ensures Apart(qs[i].elems, qs[j].elems)
    {
      assert Apart(s[i], s[j]);
      assert j == a || Apart(s[a], s[j]);
      assert i == a || Apart(s[i], s[a]);
    }
  }

  /** What moving the first k elements of queue a to the end of queue b makes of the contents. */
  ghost function Shifted(s: seq<seq<Elem>>, a: nat, b: nat, k: nat): seq<seq<Elem>>
    requires a < |s| && b < |s| && k <= |s[a]|
  {
    s[a := s[a][k..]][b := s[b] + s[a][..k]]
  }

  /** `w_alloc_len` for one of many queues. */
  method TakeLenOne(qs: seq<Queue>, mtu: nat, q: nat, qlen: nat, len: nat, off: nat, hdr: nat) returns (ghost k: nat)
    requires World(qs) && 0 < q < |qs|
    modifies qs, Members(qs)
    ensures World(qs) && k <= |old(qs[0].elems)| && Contents(qs) == Shifted(old(Contents(qs)), 0, q, k)
  {
    hide Queue.Valid;
    ghost var s := Contents(qs);
    assert s[0] == qs[0].elems && s[q] == qs[q].elems;
    ValidUnique(qs[0]);
    ValidUnique(qs[q]);
    k := |Chunks(qlen, FullLen(mtu, len, off, hdr), |qs[0].elems|)|;
    AllocLen(qs[0], qs[q], mtu, hdr, qlen, len, off);
    forall i | 0 <= i < |qs| && i != 0 && i != q
      ensures qs[i].Valid() && qs[i].elems == s[i]
    {
      Untouched(qs[i]);
    }
    MoveKeepsWorld(qs, s, 0, q, k);
  }

  /** `w_alloc_cnt` for one of many queues. */
  method TakeCntOne(qs: seq<Queue>, mtu: nat, q: nat, count: nat, len: nat, off: nat, hdr: nat) returns (ghost k: nat)
    requires World(qs) && 0 < q < |qs|
    modifies qs, Members(qs)
    ensures World(qs) && k <= |old(qs[0].elems)| && Contents(qs) == Shifted(old(Contents(qs)), 0, q, k)
  {
    hide Queue.Valid;
    ghost var s := Contents(qs);
    assert s[0] == qs[0].elems && s[q] == qs[q].elems;
    ValidUnique(qs[0]);
    ValidUnique(qs[q]);
    k := if count <= |qs[0].elems| then count else |qs[0].elems|;
    AllocCnt(qs[0], qs[q], mtu, hdr, count, len, off);
    forall i | 0 <= i < |qs| && i != 0 && i != q
      ensures qs[i].Valid() && qs[i].elems == s[i]
    {
      Untouched(qs[i]);
    }
    MoveKeepsWorld(qs, s, 0, q, k);
  }

  /** `w_free` of one of many queues. */
  method GiveOne(qs: seq<Queue>, q: nat) returns (ghost k: nat)
    requires World(qs) && 0 < q < |qs|
    modifies qs, Members(qs)
    ensures World(qs) && k <= |old(qs[q].elems)| && Contents(qs) == Shifted(old(Contents(qs)), q, 0, k)
  {
    hide Queue.Valid;
    ghost var s := Contents(qs);
    assert s[0] == qs[0].elems && s[q] == qs[q].elems;
    ValidUnique(qs[0]);
    ValidUnique(qs[q]);
    k := |qs[q].elems|;
    FreeQueue(qs[0], qs[q]);
    forall i | 0 <= i < |qs| && i != 0 && i != q
      ensures qs[i].Valid() && qs[i].elems == s[i]
    {
      Untouched(qs[i]);
    }
    MoveKeepsWorld(qs, s, q, 0, k);
  }

  /** `w_alloc_iov` from the pool among many queues. */
  method TakeIovOne(qs: seq<Queue>, mtu: nat, len: nat, off: nat, hdr: nat) returns (v: Elem?)
    requires World(qs) && |qs| > 0
    modifies qs[0], qs[0].elems
    ensures World(qs) && (v == null <==> old(qs[0].elems) == [])
    ensures v == null ==> Contents(qs) == old(Contents(qs))
    ensures v != null ==>
              && v == old(qs[0].elems)[0] && v.next == null
              && Contents(qs) == old(Contents(qs))[0 := old(qs[0].elems)[1..]]
              && v in old(Members(qs)) && v !in Members(qs)
  {
    hide Queue.Valid, FullLen;
    assert Contents(qs)[0] == qs[0].elems;
    ValidUnique(qs[0]);
    v := AllocIov(qs[0], mtu, hdr, len, off);
    forall k | 0 < k < |qs|
      ensures qs[k].Valid() && qs[k].elems == old(qs[k].elems) && Apart(qs[k].elems, qs[0].elems)
    {
      assert old(Contents(qs))[k] == old(qs[k].elems);
      Untouched(qs[k]);
    }
  }

  /** `w_free_iov` into the pool among many queues. */
  method GiveIovOne(qs: seq<Queue>, v: Elem)
    requires World(qs) && |qs| > 0 && v !in Members(qs) && v.next == null
    modifies qs[0], v`next
    ensures World(qs) && Contents(qs) == old(Contents(qs))[0 := [v] + old(qs[0].elems)]
  {
    hide Queue.Valid;
    assert Contents(qs)[0] == qs[0].elems;
    FreeIov(qs[0], v);
    forall k | 0 < k < |qs|
      ensures qs[k].Valid() && qs[k].elems == old(qs[k].elems) && Apart(qs[k].elems, qs[0].elems)
    {
      assert old(Contents(qs))[k] == old(qs[k].elems);
      Untouched(qs[k]);
    }
  }

  /** The outstanding single w_iovs are different, unlinked, and in no queue. */
  ghost predicate Loose(qs: seq<Queue>, loose: seq<Elem>)
    reads qs, loose
  {
    Unique(loose) && forall e :: e in loose ==> e.next == null && e !in Members(qs)
  }

  /** Everything there is: the w_iovs of all queues and the single ones. */
  ghost function All(qs: seq<Queue>, loose: seq<Elem>): multiset<Elem>
    reads qs
  {
    Total(Contents(qs)) + multiset(loose)
  }

  lemma TakeKeepsTotal(s: seq<seq<Elem>>, loose: seq<Elem>)
    requires |s| > 0 && s[0] != []
    ensures Total(s[0 := s[0][1..]]) + multiset(loose + [s[0][0]]) == Total(s) + multiset(loose)
  {
    var v, rest := s[0][0], s[0][1..];
    assert s[0] == [v] + rest;
    TotalUpdate(s, 0, rest);
    var s' := s[0 := rest];
    assert (Total(s') + multiset{v}) + multiset(rest) == Total(s) + multiset(rest);
    Cancel(Total(s') + multiset{v}, Total(s), multiset(rest));
    assert multiset(loose + [v]) == multiset(loose) + multiset{v};
  }

  lemma GiveKeepsTotal(s: seq<seq<Elem>>, loose: seq<Elem>, i: nat)
    requires |s| > 0 && i < |loose|
    ensures Total(s[0 := [loose[i]] + s[0]]) + multiset(loose[..i] + loose[i + 1..]) == Total(s) + multiset(loose)
  {
    var s' := s[0 := [loose[i]] + s[0]];
    TotalUpdate(s, 0, [loose[i]] + s[0]);
    assert Total(s') + multiset(s[0]) == (Total(s) + multiset{loose[i]}) + multiset(s[0]);
    Cancel(Total(s'), Total(s) + multiset{loose[i]}, multiset(s[0]));
    assert loose == loose[..i] + [loose[i]] + loose[i + 1..];
    assert multiset(loose) == multiset(loose[..i] + loose[i + 1..]) + multiset{loose[i]};
  }

  /** One allocation or free of a queue. */
  method QueueStep(qs: seq<Queue>, mtu: nat, op: PoolOp)
    requires World(qs) && Exists(qs, op) && (op.TakeLen? || op.TakeCnt? || op.GiveQueue?)
    modifies qs, Members(qs)
    ensures World(qs) && Total(Contents(qs)) == old(Total(Contents(qs)))
    ensures Members(qs) <= old(Members(qs))
  {
    ghost var s, a, b, k := Contents(qs), 0, op.q, 0;
    assert s[0] == qs[0].elems && s[op.q] == qs[op.q].elems;
    MembersAreContents(qs);
    if op.TakeLen? {
      k := TakeLenOne(qs, mtu, op.q, op.qlen, op.len, op.off, op.hdr);
    } else if op.TakeCnt? {
      k := TakeCntOne(qs, mtu, op.q, op.count, op.len, op.off, op.hdr);
    } else {
      k := GiveOne(qs, op.q);
      a, b := op.q, 0;
    }
    MoveKeepsTotal(s, a, b, k);
    MoveKeepsMembers(s, a, b, k);
    MembersAreContents(qs);
  }

  /** The queue of the operation exists. */
  predicate Exists(qs: seq<Queue>, op: PoolOp) {
    |qs| > 0 && (op.TakeLen? || op.TakeCnt? || op.GiveQueue? ==> 0 < op.q < |qs|)
  }

  /** Taking a single w_iov. */
  method TakeStep(qs: seq<Queue>, loose: seq<Elem>, mtu: nat, len: nat, off: nat, hdr: nat) returns (loose': seq<Elem>)
    requires World(qs) && Loose(qs, loose) && |qs| > 0
    modifies qs, Members(qs)
    ensures World(qs) && Loose(qs, loose') && All(qs, loose') == old(All(qs, loose))
    ensures Members(qs) + Set(loose') <= old(Members(qs)) + Set(loose)
  {
    hide World, Queue.Valid, Total, FullLen, Members;
    ghost var s := Contents(qs);
    MembersAreContents(qs);
    assert s[0] == qs[0].elems;
    var v := TakeIovOne(qs, mtu, len, off, hdr);
    MembersAreContents(qs);
    loose' := loose;
    if v != null {
      TakeKeepsTotal(s, loose);
      DropKeepsMembers(s);
      loose' := loose + [v];
    }
  }

  /** Giving back the i-th single w_iov, if there is one. */
  method GiveStep(qs: seq<Queue>, loose: seq<Elem>, i: nat) returns (loose': seq<Elem>)
    requires World(qs) && Loose(qs, loose) && |qs| > 0
    modifies qs, loose`next
    ensures World(qs) && Loose(qs, loose') && All(qs, loose') == old(All(qs, loose))
    ensures Members(qs) + Set(loose') <= old(Members(qs)) + Set(loose)
  {
    hide World, Queue.Valid, Total, Members;
    if i >= |loose| {
      return loose;
    }
    ghost var s := Contents(qs);
    MembersAreContents(qs);
    assert s[0] == qs[0].elems;
    GiveIovOne(qs, loose[i]);
    MembersAreContents(qs);
    GiveKeepsTotal(s, loose, i);
    AddKeepsMembers(s, loose[i]);
    loose' := loose[..i] + loose[i + 1..];
  }

  lemma DropKeepsMembers(s: seq<seq<Elem>>)
    requires |s| > 0 && s[0] != []
    ensures AllOf(s[0 := s[0][1..]]) <= AllOf(s)
  {
    var t := s[0 := s[0][1..]];
    forall x | x in AllOf(t)
      ensures x in AllOf(s)
    {
      var k :| 0 <= k < |t| && x in t[k];
      assert x in s[k];
    }
  }

  lemma AddKeepsMembers(s: seq<seq<Elem>>, v: Elem)
    requires |s| > 0
    ensures AllOf(s[0 := [v] + s[0]]) <= AllOf(s) + {v}
  {
  }

  /** One allocation or free. */
  method PoolStep(qs: seq<Queue>, loose: seq<Elem>, mtu: nat, op: PoolOp) returns (loose': seq<Elem>)
    requires World(qs) && Loose(qs, loose) && Exists(qs, op)
    modifies qs, Members(qs), loose`next
    ensures World(qs) && Loose(qs, loose') && All(qs, loose') == old(All(qs, loose))
    ensures Members(qs) + Set(loose') <= old(Members(qs)) + Set(loose)
  {
    hide World, Total, Members;
    match op {
      case TakeIov(len, off, hdr) =>
        loose' := TakeStep(qs, loose, mtu, len, off, hdr);
      case GiveIov(i) =>
        loose' := GiveStep(qs, loose, i);
      case _ =>
        QueueStep(qs, mtu, op);
        loose' := loose;
    }
  }

  /** Over every run of allocations and frees, of queues and of single w_iovs, pool and outstanding queues stay well
      formed and disjoint, the single w_iovs stay apart from them, and together they hold every w_iov exactly as
      often as before: none is lost, none appears twice. */
  method PoolRun(qs: seq<Queue>, loose0: seq<Elem>, mtu: nat, ops: seq<PoolOp>) returns (loose: seq<Elem>)
    requires World(qs) && Loose(qs, loose0) && forall i :: 0 <= i < |ops| ==> Exists(qs, ops[i])
    modifies qs, Members(qs), loose0
    ensures World(qs) && Loose(qs, loose) && All(qs, loose) == old(All(qs, loose0))
  {
    hide World, Loose, All, Members;
    ghost var m0 := Members(qs);
    loose := loose0;
    for i := 0 to |ops|
      invariant World(qs) && Loose(qs, loose) && All(qs, loose) == old(All(qs, loose0))
      invariant Members(qs) + Set(loose) <= m0 + Set(loose0)
    {
      forall e | e in Members(qs) || e in loose
        ensures e in m0 || e in loose0
      {
        assert e in Members(qs) + Set(loose);
      }
      loose := PoolStep(qs, loose, mtu, ops[i]);
    }
  }

  ghost function Set(s: seq<Elem>): set<Elem> { set e | e in s }

  lemma MoveKeepsMembers(s: seq<seq<Elem>>, a: nat, b: nat, k: nat)
    requires a < |s| && b < |s| && a != b && k <= |s[a]|
    ensures AllOf(Shifted(s, a, b, k)) <= AllOf(s)
  {
    var t := Shifted(s, a, b, k);
    forall x | x in AllOf(t)
      ensures x in AllOf(s)
    {
      var i :| 0 <= i < |t| && x in t[i];
      assert x in s[i] || x in s[a];
    }
  }

}
