/** The zero-copy buffer-swap protocol between w_iovs, transmit rings and receive rings, as a state machine. */
module NetmapProtocol {
  import opened Options
  import opened NetmapRing

  /** `idx` and `base` give, for each w_iov, its buffer index and the index of the buffer its base points at. `rx`
      holds the buffer indices of the receive slots. `pool` is the engine's free queue, `out` the w_iovs in the
      hands of the application or of a socket queue; a w_iov in neither has been lost. */
  datatype State = State(rings: seq<Ring>, curTxr: nat, rx: seq<seq<nat>>, idx: seq<nat>, base: seq<nat>,
                         pool: seq<nat>, out: set<nat>)

  datatype Event =
    | Alloc
    | Free(v: nat)
    | FreeQueue(q: seq<nat>)
    | Send(v: nat)
    | Sync(tails: seq<nat>)
    | Deliver(ring: nat, slot: nat)
    | Reject

  // ----- transitions

  /** The ring search of `eth_tx`: the first ring with space among the next k, starting at c. */
  function PickRing(rings: seq<Ring>, c: nat, k: nat): (r: Option<nat>)
    requires c < |rings|
    ensures r.Some? ==> r.value < |rings| && !Full(rings[r.value])
    decreases k
  {
    if k == 0 then None
    else if !Full(rings[c]) then Some(c)
    else PickRing(rings, Next(c, |rings|), k - 1)
  }

  /** The search finds the first ring with space, counted circularly from c, and nothing only if k rings have none. */
  lemma {:induction false} PickRingFirst(rings: seq<Ring>, c: nat, k: nat)
    requires c < |rings| && k <= |rings|
    ensures var p := PickRing(rings, c, k);
            && (p.Some? ==> Dist(c, p.value, |rings|) < k)
            && var d := if p.Some? then Dist(c, p.value, |rings|) else k;
            && forall i: nat :: i < |rings| && Dist(c, i, |rings|) < d ==> Full(rings[i])
    decreases k
  {
    if k > 0 && Full(rings[c]) {
      var n, c' := |rings|, Next(c, |rings|);
      PickRingFirst(rings, c', k - 1);
      assert forall i: nat :: i < n && i != c ==> Dist(c, i, n) == Dist(c', i, n) + 1;
    }
  }

  /** `eth_tx` in non-pipe mode. */
  function SendStep(s: State, v: nat): (State, bool)
    requires WellShaped(s) && v < |s.idx|
  {
    match PickRing(s.rings, s.curTxr, |s.rings|)
    case None => (s, false)
    case Some(i) =>
      var r := s.rings[i];
      (s.(curTxr := i, rings := s.rings[i := Placed(r, v, s.idx[v])], idx := s.idx[v := r.slots[r.cur]]), true)
  }

  /** `w_nic_tx` on ring i, the kernel having moved its tail. */
  function SyncOne(rings: seq<Ring>, idx: seq<nat>, i: nat, tail: nat): (p: (seq<Ring>, seq<nat>))
    requires i < |rings| && Shaped(rings[i]) && tail < |rings[i].slots|
    ensures |p.0| == |rings| && |p.1| == |idx|
    ensures forall j :: 0 <= j < |rings| && j != i ==> p.0[j] == rings[j]
    ensures Shaped(p.0[i]) && |p.0[i].slots| == |rings[i].slots|
  {
    var (r, idx') := Synced(rings[i], idx, tail);
    (rings[i := r], idx')
  }

  /** One tail for each ring, within the ring. */
  ghost predicate Ready(rings: seq<Ring>, tails: seq<nat>) {
    |rings| == |tails| && forall i :: 0 <= i < |rings| ==> Shaped(rings[i]) && tails[i] < |rings[i].slots|
  }

  /** The same rings in shape, and from k on the same rings. */
  ghost predicate Alike(rings': seq<Ring>, rings: seq<Ring>, k: nat) {
    && |rings'| == |rings|
    && (forall i :: 0 <= i < |rings| ==> Shaped(rings'[i]) && |rings'[i].slots| == |rings[i].slots|)
    && (forall i :: k <= i < |rings| ==> rings'[i] == rings[i])
  }

  /** `w_nic_tx` on the first k rings. */
  function SyncRings(rings: seq<Ring>, idx: seq<nat>, tails: seq<nat>, k: nat): (p: (seq<Ring>, seq<nat>))
    requires Ready(rings, tails) && k <= |rings|
    ensures |p.1| == |idx| && Alike(p.0, rings, k)
  {
    if k == 0 then (rings, idx)
    else
      var (rings', idx') := SyncRings(rings, idx, tails, k - 1);
      SyncOne(rings', idx', k - 1, tails[k - 1])
  }

  lemma SyncNone(rings: seq<Ring>, idx: seq<nat>, tails: seq<nat>)
    requires Ready(rings, tails)
    ensures SyncRings(rings, idx, tails, 0) == (rings, idx)
  {
  }

  lemma SyncNext(rings: seq<Ring>, idx: seq<nat>, tails: seq<nat>, k: nat)
    requires Ready(rings, tails) && k < |rings|
    ensures var p := SyncRings(rings, idx, tails, k);
            && |p.0| == |rings| == |tails| && p.0[k] == rings[k] && Shaped(rings[k]) && tails[k] < |rings[k].slots|
            && SyncRings(rings, idx, tails, k + 1) == SyncOne(p.0, p.1, k, tails[k])
  {
  }

  /** The delivery path of `udp_rx`: a w_iov from the pool takes over the buffer of the receive slot. */
  function DeliverStep(s: State, i: nat, j: nat): State
    requires WellShaped(s) && i < |s.rx| && j < |s.rx[i]|
  {
    if |s.pool| == 0 then s
    else
      var v := s.pool[0];
      var x := s.rx[i][j];
      s.(pool := s.pool[1..], out := s.out + {v}, idx := s.idx[v := x], base := s.base[v := x],
      rx := s.rx[i := s.rx[i][j := s.idx[v]]])
  }

  function SetOf(q: seq<nat>): set<nat> {
    set v | v in q
  }

  function Apply(s: State, e: Event): State
    requires WellShaped(s) && Legal(s, e)
  {
    match e
    case Alloc => if |s.pool| == 0 then s else s.(pool := s.pool[1..], out := s.out + {s.pool[0]})
    case Free(v) => s.(pool := [v] + s.pool, out := s.out - {v})
    case FreeQueue(q) => s.(pool := s.pool + q, out := s.out - SetOf(q))
    case Send(v) => SendStep(s, v).0
    case Sync(tails) => var (rings, idx) := SyncRings(s.rings, s.idx, tails, |s.rings|); s.(rings := rings, idx := idx)
    case Deliver(i, j) => DeliverStep(s, i, j)
    case Reject => if |s.pool| == 0 then s else s.(pool := s.pool[1..])
  }

  // ----- what the events do, slot by slot

  /** Sending succeeds exactly when some ring has space. It takes the first such ring from the current one on: the
      slot at its old cur holds the w_iov and its buffer, the w_iov has the slot's buffer, and nothing else changes.
      */
  lemma SendPlaces(s: State, v: nat)
    requires WellShaped(s) && v < |s.idx|
    ensures SendStep(s, v).1 <==> exists i :: 0 <= i < |s.rings| && !Full(s.rings[i])
    ensures !SendStep(s, v).1 ==> SendStep(s, v).0 == s
    ensures SendStep(s, v).1 ==>
              var t := SendStep(s, v).0;
              && t.curTxr < |s.rings| == |t.rings| && !Full(s.rings[t.curTxr])
              && (forall i: nat :: i < |s.rings| && (i - s.curTxr) % |s.rings| < (t.curTxr - s.curTxr) % |s.rings| ==>
                                   Full(s.rings[i]))
              && (forall i: nat :: i < |s.rings| && i != t.curTxr ==> t.rings[i] == s.rings[i])
              && var r, q := s.rings[t.curTxr], t.rings[t.curTxr];
              && q.held == r.held[r.cur := Some(v)] && q.slots == r.slots[r.cur := s.idx[v]]
              && q.cur == (r.cur + 1) % |r.slots| && q.tail == r.tail && q.saved == r.saved
              && t.idx == s.idx[v := r.slots[r.cur]]
              && t.rx == s.rx && t.base == s.base && t.pool == s.pool && t.out == s.out
  {
    hide PickRing, Dist, Next;
    var n := |s.rings|;
    PickRingFirst(s.rings, s.curTxr, n);
    forall i: nat | i < n
      ensures Dist(s.curTxr, i, n) == (i - s.curTxr) % n
    {
      StepsAreModular(s.curTxr, i, n);
    }
    var p := PickRing(s.rings, s.curTxr, n);
    if p.Some? {
      StepsAreModular(s.rings[p.value].cur, s.rings[p.value].cur, |s.rings[p.value].slots|);
    }
  }

  /** A delivery exchanges buffers: the w_iov from the front of the pool goes out with the buffer of the receive
      slot, its base there too, the slot gets the buffer of the w_iov, and nothing else changes. */
  lemma DeliverSwaps(s: State, i: nat, j: nat)
    requires WellShaped(s) && i < |s.rx| && j < |s.rx[i]| && |s.pool| > 0
    ensures var v, t := s.pool[0], Apply(s, Deliver(i, j));
            && v in t.out && t.pool == s.pool[1..]
            && |t.idx| == |s.idx| && |t.base| == |s.base|
            && t.idx[v] == t.base[v] == s.rx[i][j]
            && (forall u: nat :: u < |s.idx| && u != v ==> t.idx[u] == s.idx[u] && t.base[u] == s.base[u])
            && (forall u :: u != v ==> (u in t.out <==> u in s.out))
            && |t.rx| == |s.rx| && |t.rx[i]| == |s.rx[i]| && t.rx[i][j] == s.idx[v]
            && (forall a: nat :: a < |s.rx| && a != i ==> t.rx[a] == s.rx[a])
            && (forall b: nat :: b < |s.rx[i]| && b != j ==> t.rx[i][b] == s.rx[i][b])
            && t.rings == s.rings && t.curTxr == s.curTxr
  {
  }

  /** Giving back moves exactly the given w_iovs from the application to the pool; a w_iov that is given out moves the
      other way. */
  lemma PoolMoves(s: State, e: Event, u: nat)
    requires WellShaped(s) && Legal(s, e) && (e.Alloc? || e.Free? || e.FreeQueue?)
    requires Distinct(s.pool) && forall i :: 0 <= i < |s.pool| ==> s.pool[i] !in s.out
    ensures var t := Apply(s, e);
            && t.rings == s.rings && t.rx == s.rx && t.idx == s.idx && t.base == s.base && t.curTxr == s.curTxr
            && match e
               case Alloc =>
                 if |s.pool| > 0 && u == s.pool[0] then u in t.out && u !in t.pool
                 else (u in t.out <==> u in s.out) && (u in t.pool <==> u in s.pool)
               case Free(v) =>
                 if u == v then u in t.pool && u !in t.out
                 else (u in t.out <==> u in s.out) && (u in t.pool <==> u in s.pool)
               case FreeQueue(q) =>
                 if u in q then u in t.pool && u !in t.out
                 else (u in t.out <==> u in s.out) && (u in t.pool <==> u in s.pool)
               case _ => true
  {
    if e.Alloc? && |s.pool| > 0 {
      assert s.pool == [s.pool[0]] + s.pool[1..];
    }
  }

  /** A sync takes over the tails, empties exactly the slots handed back on each ring, and leaves cur, the pool and the
      receive side alone. */
  lemma SyncTakesTails(s: State, tails: seq<nat>, i: nat, j: nat)
    requires WellShaped(s) && Legal(s, Sync(tails)) && i < |s.rings| && j < |s.rings[i].slots|
    ensures var t := Apply(s, Sync(tails));
            && |t.rings| == |s.rings|
            && var r, q, n := s.rings[i], t.rings[i], |s.rings[i].slots|;
            && q.tail == q.saved == tails[i] && q.cur == r.cur && |q.slots| == |q.held| == n
            && (if Dist(Next(r.saved, n), j, n) < Dist(r.saved, tails[i], n) then q.held[j] == None
                else q.held[j] == r.held[j] && q.slots[j] == r.slots[j])
            && t.rx == s.rx && t.base == s.base && t.pool == s.pool && t.out == s.out && t.curTxr == s.curTxr
  {
    hide Reclaimed, Dist;
    SyncEach(s.rings, s.idx, tails, |s.rings|, i, j);
  }

  lemma SyncTails(s: State, tails: seq<nat>)
    requires WellShaped(s) && Legal(s, Sync(tails))
    ensures var t := Apply(s, Sync(tails));
            && |t.rings| == |s.rings| == |tails|
            && (forall i :: 0 <= i < |t.rings| ==>
                  t.rings[i].tail == t.rings[i].saved == tails[i] && t.rings[i].cur == s.rings[i].cur)
            && t.rx == s.rx && t.base == s.base && t.pool == s.pool && t.out == s.out && t.curTxr == s.curTxr
  {
    hide SyncRings, Dist;
    forall i | 0 <= i < |s.rings|
      ensures var t := Apply(s, Sync(tails));
        |t.rings| == |s.rings| && t.rings[i].tail == t.rings[i].saved == tails[i] && t.rings[i].cur == s.rings[i].cur
    {
      SyncTakesTails(s, tails, i, 0);
    }
  }

  lemma {:induction false} SyncEach(rings: seq<Ring>, idx: seq<nat>, tails: seq<nat>, k: nat, i: nat, j: nat)
    requires Ready(rings, tails) && i < k <= |rings| && j < |rings[i].slots|
    requires forall a :: 0 <= a < |rings| ==> HoldsIovs(rings[a], |idx|)
    ensures var r, q, n := rings[i], SyncRings(rings, idx, tails, k).0[i], |rings[i].slots|;
            && q.tail == q.saved == tails[i] && q.cur == r.cur && |q.slots| == |q.held| == n
            && if Dist(Next(r.saved, n), j, n) < Dist(r.saved, tails[i], n) then q.held[j] == None
               else q.held[j] == r.held[j] && q.slots[j] == r.slots[j]
    decreases k
  {
    hide Reclaimed, Dist, Alike;
    SyncNext(rings, idx, tails, k - 1);
    if i < k - 1 {
      SyncEach(rings, idx, tails, k - 1, i, j);
      SyncOneOthers(rings, idx, tails, k, i);
    } else {
      var p := SyncRings(rings, idx, tails, k - 1);
      SyncedSlot(rings[i], p.1, tails[i], j);
    }
  }

  lemma SyncOneOthers(rings: seq<Ring>, idx: seq<nat>, tails: seq<nat>, k: nat, i: nat)
    requires Ready(rings, tails) && 0 < k <= |rings| && i < k - 1
    ensures SyncRings(rings, idx, tails, k).0[i] == SyncRings(rings, idx, tails, k - 1).0[i]
  {
    SyncNext(rings, idx, tails, k - 1);
  }

  lemma SyncedSlot(r: Ring, idx: seq<nat>, tail: nat, j: nat)
    requires Shaped(r) && HoldsIovs(r, |idx|) && tail < |r.slots| && j < |r.slots|
    ensures var q, n := Synced(r, idx, tail).0, |r.slots|;
            && q.tail == q.saved == tail && q.cur == r.cur && |q.slots| == |q.held| == n
            && if Dist(Next(r.saved, n), j, n) < Dist(r.saved, tail, n) then q.held[j] == None
               else q.held[j] == r.held[j] && q.slots[j] == r.slots[j]
  {
    hide Reclaimed;
    ReclaimedHeld(r.(tail := tail), idx, Dist(r.saved, tail, |r.slots|), j);
  }

  // ----- what callers and the kernel must respect

  ghost predicate WellShaped(s: State) {
    && (forall i :: 0 <= i < |s.rings| ==> Shaped(s.rings[i]) && HoldsIovs(s.rings[i], |s.idx|))
    && s.curTxr < |s.rings|
    && |s.base| == |s.idx|
    && (forall i :: 0 <= i < |s.pool| ==> s.pool[i] < |s.idx|)
  }

  ghost predicate Distinct(q: seq<nat>) {
    forall i, j :: 0 <= i < j < |q| ==> q[i] != q[j]
  }

  /** Arguments in range, only handed-out w_iovs are given back, and the kernel hands back only filled slots. A
      w_iov may be sent again, or given back, while the ring still carries it. */
  ghost predicate Legal(s: State, e: Event)
    requires WellShaped(s)
  {
    match e
    case Free(v) => v in s.out && v < |s.idx|
    case FreeQueue(q) => Distinct(q) && forall v :: v in q ==> v in s.out && v < |s.idx|
    case Send(v) => v < |s.idx|
    case Sync(tails) => Ready(s.rings, tails) && forall i :: 0 <= i < |tails| ==> Advances(s.rings[i], tails[i])
    case Deliver(i, j) => i < |s.rx| && j < |s.rx[i]|
    case _ => true
  }

  // ----- conservation of buffer indices

  /** How many slots of these rings hold buffer x. */
  function RingOwners(rings: seq<Ring>, x: nat): nat {
    if |rings| == 0 then 0 else RingOwners(rings[..|rings| - 1], x) + multiset(rings[|rings| - 1].slots)[x]
  }

  function RxOwners(rx: seq<seq<nat>>, x: nat): nat {
    if |rx| == 0 then 0 else RxOwners(rx[..|rx| - 1], x) + multiset(rx[|rx| - 1])[x]
  }

  /** How many places own buffer x: w_iovs, transmit slots and receive slots together. */
  function Owners(s: State, x: nat): nat {
    multiset(s.idx)[x] + RingOwners(s.rings, x) + RxOwners(s.rx, x)
  }

  function Is(x: nat, y: nat): nat {
    if x == y then 1 else 0
  }

  lemma UpdateCount(a: seq<nat>, i: nat, y: nat, x: nat)
    requires i < |a|
    ensures multiset(a[i := y])[x] == multiset(a)[x] - Is(a[i], x) + Is(y, x)
  {
    assert a == a[..i] + [a[i]] + a[i + 1..];
    assert a[i := y] == a[..i] + [y] + a[i + 1..];
  }

  lemma {:induction false} UpdateRing(rings: seq<Ring>, i: nat, r: Ring, x: nat)
    requires i < |rings|
    ensures RingOwners(rings[i := r], x) ==
            RingOwners(rings, x) - multiset(rings[i].slots)[x] + multiset(r.slots)[x]
  {
    var last := |rings| - 1;
    if i == last {
      assert rings[i := r][..last] == rings[..last];
    } else {
      assert rings[i := r][..last] == rings[..last][i := r];
      UpdateRing(rings[..last], i, r, x);
    }
  }

  lemma {:induction false} UpdateRx(rx: seq<seq<nat>>, i: nat, q: seq<nat>, x: nat)
    requires i < |rx|
    ensures RxOwners(rx[i := q], x) == RxOwners(rx, x) - multiset(rx[i])[x] + multiset(q)[x]
  {
    var last := |rx| - 1;
    if i == last {
      assert rx[i := q][..last] == rx[..last];
    } else {
      assert rx[i := q][..last] == rx[..last][i := q];
      UpdateRx(rx[..last], i, q, x);
    }
  }

  lemma ReclaimSlotKeeps(r: Ring, idx: seq<nat>, j: nat, x: nat)
    requires Shaped(r) && j < |r.slots|
    ensures var (r', idx') := ReclaimSlot(r, idx, j);
            multiset(r'.slots)[x] + multiset(idx')[x] == multiset(r.slots)[x] + multiset(idx)[x]
  {
    if r.held[j].Some? && r.held[j].value < |idx| {
      var v := r.held[j].value;
      UpdateCount(r.slots, j, idx[v], x);
      UpdateCount(idx, v, r.slots[j], x);
    }
  }

  /** A ring and the w_iovs between them keep their buffers through a reclaim. */
  lemma {:induction false} ReclaimedKeeps(r: Ring, idx: seq<nat>, d: nat, x: nat)
    requires Shaped(r) && d < |r.slots|
    ensures var (r', idx') := Reclaimed(r, idx, d);
            multiset(r'.slots)[x] + multiset(idx')[x] == multiset(r.slots)[x] + multiset(idx)[x]
  {
    hide ReclaimSlot;
    if d > 0 {
      ReclaimedKeeps(r, idx, d - 1, x);
      var (r1, idx1) := Reclaimed(r, idx, d - 1);
      ReclaimSlotKeeps(r1, idx1, Ahead(Next(r.saved, |r.slots|), d - 1, |r.slots|), x);
    }
  }

  /** How many w_iovs and transmit slots own buffer x. */
  function TxOwners(p: (seq<Ring>, seq<nat>), x: nat): nat {
    RingOwners(p.0, x) + multiset(p.1)[x]
  }

  lemma SyncOneKeeps(rings: seq<Ring>, idx: seq<nat>, i: nat, tail: nat, x: nat)
    requires i < |rings| && Shaped(rings[i]) && tail < |rings[i].slots|
    ensures TxOwners(SyncOne(rings, idx, i, tail), x) == TxOwners((rings, idx), x)
  {
    var r := rings[i];
    ReclaimedKeeps(r.(tail := tail), idx, Dist(r.saved, tail, |r.slots|), x);
    UpdateRing(rings, i, Synced(r, idx, tail).0, x);
  }

  lemma {:induction false} SyncKeeps(rings: seq<Ring>, idx: seq<nat>, tails: seq<nat>, k: nat, x: nat)
    requires Ready(rings, tails) && k <= |rings|
    ensures TxOwners(SyncRings(rings, idx, tails, k), x) == TxOwners((rings, idx), x)
  {
    hide SyncOne, SyncRings, TxOwners, Ready;
    if k == 0 {
      SyncNone(rings, idx, tails);
    } else {
      SyncKeeps(rings, idx, tails, k - 1, x);
      var p := SyncRings(rings, idx, tails, k - 1);
      assert p == (p.0, p.1);
      SyncNext(rings, idx, tails, k - 1);
      SyncOneKeeps(p.0, p.1, k - 1, tails[k - 1], x);
    }
  }

  lemma SendKeeps(s: State, v: nat, x: nat)
    requires WellShaped(s) && v < |s.idx|
    ensures Owners(SendStep(s, v).0, x) == Owners(s, x)
  {
    var p := PickRing(s.rings, s.curTxr, |s.rings|);
    if p.Some? {
      var r := s.rings[p.value];
      UpdateRing(s.rings, p.value, Placed(r, v, s.idx[v]), x);
      UpdateCount(r.slots, r.cur, s.idx[v], x);
      UpdateCount(s.idx, v, r.slots[r.cur], x);
    }
  }

  lemma DeliverKeeps(s: State, i: nat, j: nat, x: nat)
    requires WellShaped(s) && i < |s.rx| && j < |s.rx[i]|
    ensures Owners(DeliverStep(s, i, j), x) == Owners(s, x)
  {
    if |s.pool| > 0 {
      var v := s.pool[0];
      UpdateRx(s.rx, i, s.rx[i][j := s.idx[v]], x);
      UpdateCount(s.rx[i], j, s.idx[v], x);
      UpdateCount(s.idx, v, s.rx[i][j], x);
    }
  }

  /** No step creates, drops or duplicates a buffer. */
  lemma ApplyKeepsOwners(s: State, e: Event, x: nat)
    requires WellShaped(s) && Legal(s, e)
    ensures Owners(Apply(s, e), x) == Owners(s, x)
  {
    match e
    case Send(v) => SendKeeps(s, v, x);
    case Sync(tails) =>
      SyncKeeps(s.rings, s.idx, tails, |s.rings|, x);
    case Deliver(i, j) => DeliverKeeps(s, i, j, x);
    case _ =>
  }
}
