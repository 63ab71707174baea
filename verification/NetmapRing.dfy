/** One netmap transmit ring with the bookkeeping warpcore keeps beside it, and the w_iovs it exchanges buffers with. */
module NetmapRing {
  import opened Options

  /** `slots` holds the buf_idx of every slot, `held` the slot_buf entry (the w_iov placed there), `saved` the
      remembered tail. The head of a transmit ring always equals cur, so it is not kept apart. */
  datatype Ring = Ring(cur: nat, tail: nat, saved: nat, slots: seq<nat>, held: seq<Option<nat>>)

  /** `nm_ring_next`. */
  function Next(i: nat, n: nat): (j: nat)
    requires i < n
    ensures j < n
  {
    if i + 1 == n then 0 else i + 1
  }

  /** How many steps of Next lead from a to b. */
  function Dist(a: nat, b: nat, n: nat): (d: nat)
    requires a < n && b < n
    ensures d < n
  {
    if a <= b then b - a else b + n - a
  }

  /** The slot d steps after a. */
  function Ahead(a: nat, d: nat, n: nat): (j: nat)
    requires a < n && d < n
    ensures j < n && Dist(a, j, n) == d
  {
    if a + d < n then a + d else a + d - n
  }

  /** The steps are those of arithmetic modulo the number of slots. */
  lemma StepsAreModular(a: nat, b: nat, n: nat)
    requires a < n && b < n
    ensures Next(a, n) == (a + 1) % n && Dist(a, b, n) == (b - a) % n
  {
    if a > b {
      assert b - a == (-1) * n + (b - a + n);
    }
  }

  lemma AheadStart(a: nat, n: nat)
    requires a < n
    ensures Ahead(a, 0, n) == a
  {
  }

  lemma AheadStep(a: nat, d: nat, n: nat)
    requires a < n && d + 1 < n
    ensures Next(Ahead(a, d, n), n) == Ahead(a, d + 1, n)
  {
  }

  /** Walking on from the slot after `saved` arrives at the slot after `tail` when it has passed all slots up to
      `tail`. */
  lemma AheadEnd(saved: nat, tail: nat, d: nat, n: nat)
    requires saved < n && tail < n && d < n
    ensures Ahead(Next(saved, n), d, n) == Next(tail, n) <==> d == Dist(saved, tail, n)
  {
  }

  ghost predicate Shaped(r: Ring) {
    && |r.held| == |r.slots|
    && r.cur < |r.slots| && r.tail < |r.slots| && r.saved < |r.slots|
  }

  /** `nm_ring_empty`: no slot left to transmit from. */
  predicate Full(r: Ring) {
    r.cur == r.tail
  }

  /** How many slots have been filled since the remembered tail. */
  function Pending(r: Ring): (p: nat)
    requires Shaped(r)
    ensures p < |r.slots|
  {
    Dist(Next(r.saved, |r.slots|), r.cur, |r.slots|)
  }

  /** The occupied slot_buf entries are exactly the circular interval after the remembered tail up to cur. */
  ghost predicate Interval(r: Ring)
    requires Shaped(r)
  {
    forall j: nat :: j < |r.slots| ==>
                       (r.held[j].Some? <==> Dist(Next(r.saved, |r.slots|), j, |r.slots|) < Pending(r))
  }

  /** Between calls the remembered tail is the tail of the ring. */
  ghost predicate Settled(r: Ring) {
    Shaped(r) && r.saved == r.tail && Interval(r)
  }

  lemma TailIrrelevant(r: Ring, tail: nat)
    requires Shaped(r) && tail < |r.slots| && Interval(r)
    ensures Interval(r.(tail := tail)) && Pending(r.(tail := tail)) == Pending(r)
  {
  }

  // ----- sending

  /** The ring side of `eth_tx`: w_iov v, whose buffer is x, is placed in the current slot. */
  function Placed(r: Ring, v: nat, x: nat): Ring
    requires Shaped(r)
  {
    r.(slots := r.slots[r.cur := x], held := r.held[r.cur := Some(v)], cur := Next(r.cur, |r.slots|))
  }

  lemma PlacedPending(r: Ring, v: nat, x: nat)
    requires Shaped(r)
    ensures Shaped(Placed(r, v, x))
    ensures r.cur != r.saved ==> Pending(Placed(r, v, x)) == Pending(r) + 1
    ensures r.cur == r.saved ==> Pending(Placed(r, v, x)) == 0
  {
  }

  /** Placing keeps the interval exactly when cur has not come round to the remembered tail. */
  lemma PlacedKeepsInterval(r: Ring, v: nat, x: nat)
    requires Shaped(r) && Interval(r)
    ensures Shaped(Placed(r, v, x)) && (Interval(Placed(r, v, x)) <==> r.cur != r.saved)
  {
    var r' := Placed(r, v, x);
    PlacedPending(r, v, x);
    if r.cur == r.saved {
      assert r'.held[r.cur].Some?;
    }
  }

  /** Between calls a ring counts as full exactly when all its slots but one are filled. */
  lemma FullIff(r: Ring)
    requires Settled(r)
    ensures Full(r) <==> Pending(r) == |r.slots| - 1
  {
  }

  /** The current slot of a ring with space carries no w_iov. */
  lemma CurrentIsFree(r: Ring)
    requires Shaped(r) && Interval(r)
    ensures r.held[r.cur].None?
  {
  }

  // ----- reclaiming

  /** One iteration of the reclaim loop: slot j and its w_iov swap buffers back, and the slot forgets the w_iov. */
  function ReclaimSlot(r: Ring, idx: seq<nat>, j: nat): (Ring, seq<nat>)
    requires Shaped(r) && j < |r.slots|
  {
    if r.held[j].Some? && r.held[j].value < |idx| then
      var v := r.held[j].value;
      (r.(slots := r.slots[j := idx[v]], held := r.held[j := None]), idx[v := r.slots[j]])
    else (r, idx)
  }

  /** The first d iterations of the reclaim loop. */
  function Reclaimed(r: Ring, idx: seq<nat>, d: nat): (p: (Ring, seq<nat>))
    requires Shaped(r) && d < |r.slots|
    ensures Shaped(p.0) && |p.0.slots| == |r.slots| && |p.1| == |idx|
    ensures p.0.cur == r.cur && p.0.tail == r.tail && p.0.saved == r.saved
  {
    if d == 0 then (r, idx)
    else
      var (r', idx') := Reclaimed(r, idx, d - 1);
      ReclaimSlot(r', idx', Ahead(Next(r.saved, |r.slots|), d - 1, |r.slots|))
  }

  lemma ReclaimedNext(r: Ring, idx: seq<nat>, d: nat)
    requires Shaped(r) && d < |r.slots|
    ensures Reclaimed(r, idx, 0) == (r, idx)
    ensures d + 1 < |r.slots| ==>
              var p := Reclaimed(r, idx, d);
              Reclaimed(r, idx, d + 1) == ReclaimSlot(p.0, p.1, Ahead(Next(r.saved, |r.slots|), d, |r.slots|))
  {
  }

  /** Reclaiming empties exactly the slots it walks over and leaves the others alone. */
  lemma {:induction false} ReclaimedHeld(r: Ring, idx: seq<nat>, d: nat, j: nat)
    requires Shaped(r) && HoldsIovs(r, |idx|) && d < |r.slots| && j < |r.slots|
    ensures HoldsIovs(Reclaimed(r, idx, d).0, |idx|)
    ensures var q := Reclaimed(r, idx, d).0;
            if Dist(Next(r.saved, |r.slots|), j, |r.slots|) < d then q.held[j] == None
            else q.held[j] == r.held[j] && q.slots[j] == r.slots[j]
  {
    if d > 0 {
      ReclaimedHeld(r, idx, d - 1, j);
      var k := Ahead(Next(r.saved, |r.slots|), d - 1, |r.slots|);
      if k != j {
        AheadUnique(Next(r.saved, |r.slots|), d - 1, j, |r.slots|);
      }
    }
  }

  lemma AheadUnique(a: nat, d: nat, j: nat, n: nat)
    requires a < n && d < n && j < n
    ensures Dist(a, j, n) == d <==> j == Ahead(a, d, n)
  {
  }

  /** The kernel's part of a transmit sync: it may hand back any number of the slots filled so far, in order. */
  predicate Advances(r: Ring, tail: nat)
    requires Shaped(r)
  {
    tail < |r.slots| && Dist(r.saved, tail, |r.slots|) <= Pending(r)
  }

  /** The tail moves, the handed-back slots are reclaimed, and the tail is remembered. */
  function Synced(r: Ring, idx: seq<nat>, tail: nat): (p: (Ring, seq<nat>))
    requires Shaped(r) && tail < |r.slots|
    ensures |p.1| == |idx|
  {
    var (r', idx') := Reclaimed(r.(tail := tail), idx, Dist(r.saved, tail, |r.slots|));
    (r'.(saved := tail), idx')
  }

  /** Which slots are still occupied in the middle of the reclaim loop. */
  ghost predicate IntervalFrom(r: Ring, d: nat)
    requires Shaped(r)
  {
    forall j: nat :: j < |r.slots| ==>
                       (r.held[j].Some? <==> d <= Dist(Next(r.saved, |r.slots|), j, |r.slots|) < Pending(r))
  }

  ghost predicate HoldsIovs(r: Ring, n: nat) {
    forall j: nat :: j < |r.held| && r.held[j].Some? ==> r.held[j].value < n
  }

  /** The reclaim loop meets an occupied slot in every iteration. */
  lemma {:induction false} ReclaimedInterval(r: Ring, idx: seq<nat>, d: nat)
    requires Shaped(r) && Interval(r) && HoldsIovs(r, |idx|) && d <= Pending(r)
    ensures IntervalFrom(Reclaimed(r, idx, d).0, d) && HoldsIovs(Reclaimed(r, idx, d).0, |idx|)
    ensures d < Pending(r) ==>
              Reclaimed(r, idx, d).0.held[Ahead(Next(r.saved, |r.slots|), d, |r.slots|)].Some?
  {
    hide Interval, IntervalFrom, HoldsIovs, ReclaimSlot, Ahead;
    if d == 0 {
      FromStart(r);
    } else {
      ReclaimedInterval(r, idx, d - 1);
      var p := Reclaimed(r, idx, d - 1);
      ReclaimSlotInterval(p.0, p.1, d - 1);
    }
    if d < Pending(r) {
      ReclaimSlotInterval(Reclaimed(r, idx, d).0, Reclaimed(r, idx, d).1, d);
    }
  }

  lemma FromStart(r: Ring)
    requires Shaped(r) && Interval(r)
    ensures IntervalFrom(r, 0)
  {
  }

  /** One iteration finds its slot occupied and frees just that one. */
  lemma ReclaimSlotInterval(r: Ring, idx: seq<nat>, d: nat)
    requires Shaped(r) && IntervalFrom(r, d) && HoldsIovs(r, |idx|) && d < Pending(r)
    ensures var j := Ahead(Next(r.saved, |r.slots|), d, |r.slots|);
            && r.held[j].Some?
            && var r' := ReclaimSlot(r, idx, j).0; Shaped(r') && IntervalFrom(r', d + 1) && HoldsIovs(r', |idx|)
  {
  }

  lemma SyncedSettled(r: Ring, idx: seq<nat>, tail: nat)
    requires Shaped(r) && Interval(r) && HoldsIovs(r, |idx|) && Advances(r, tail)
    ensures Settled(Synced(r, idx, tail).0) && HoldsIovs(Synced(r, idx, tail).0, |idx|)
  {
    var r1, d := r.(tail := tail), Dist(r.saved, tail, |r.slots|);
    ReclaimedInterval(r1, idx, d);
    hide Reclaimed;
    RememberTail(Reclaimed(r1, idx, d).0, d);
  }

  lemma RememberTail(r: Ring, d: nat)
    requires Shaped(r) && IntervalFrom(r, d) && d == Dist(r.saved, r.tail, |r.slots|) <= Pending(r)
    ensures Settled(r.(saved := r.tail))
  {
    var n, r' := |r.slots|, r.(saved := r.tail);
    assert Pending(r') == Pending(r) - d;
    forall j: nat | j < n
      ensures r'.held[j].Some? <==> Dist(Next(r'.saved, n), j, n) < Pending(r')
    {
      var a, b := Dist(Next(r.saved, n), j, n), Dist(Next(r'.saved, n), j, n);
      assert b == if d <= a then a - d else a - d + n;
    }
  }

  // ----- a sync that comes at the wrong time

  /** Were the tail to move without a reclaim, a ring could be filled past its remembered tail: here a ring of four
      slots loses track of the w_iovs in it. Interval then fails although every single placement found space. */
  lemma LateReclaimLosesTrack()
    ensures var r0 := Ring(1, 0, 0, [10, 11, 12, 13], [None, None, None, None]);
            Settled(r0) &&
            var r3 := Placed(Placed(Placed(r0, 0, 20), 1, 21), 2, 22);
            Settled(r3) && Full(r3) && Advances(r3, 2) &&
            var r4 := r3.(tail := 2);
            !Full(r4) && !Interval(Placed(r4, 3, 23))
  {
    var r0 := Ring(1, 0, 0, [10, 11, 12, 13], [None, None, None, None]);
    PlacedKeepsInterval(r0, 0, 20);
    var r1 := Placed(r0, 0, 20);
    PlacedKeepsInterval(r1, 1, 21);
    var r2 := Placed(r1, 1, 21);
    PlacedKeepsInterval(r2, 2, 22);
    PlacedKeepsInterval(Placed(r2, 2, 22).(tail := 2), 3, 23);
  }
}
