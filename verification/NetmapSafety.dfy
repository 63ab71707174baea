/** What every step of the buffer-swap protocol keeps, and what that means for whole runs. */
module NetmapSafety {
  import opened Options
  import opened NetmapRing
  import opened NetmapProtocol

  // ----- the occupied slots

  ghost predicate AllSettled(rings: seq<Ring>, n: nat) {
    forall i :: 0 <= i < |rings| ==> Settled(rings[i]) && HoldsIovs(rings[i], n)
  }

  /** The state is well shaped and every ring is settled. */
  ghost predicate Invariant(s: State) {
    WellShaped(s) && AllSettled(s.rings, |s.idx|)
  }

  lemma SendKeepsInvariant(s: State, v: nat)
    requires Invariant(s) && v < |s.idx|
    ensures Invariant(SendStep(s, v).0)
  {
    var p := PickRing(s.rings, s.curTxr, |s.rings|);
    if p.Some? {
      PlacedKeepsInterval(s.rings[p.value], v, s.idx[v]);
    }
  }

  lemma SyncOneSettles(rings: seq<Ring>, idx: seq<nat>, i: nat, tail: nat)
    requires AllSettled(rings, |idx|) && i < |rings| && Shaped(rings[i]) && Advances(rings[i], tail)
    ensures AllSettled(SyncOne(rings, idx, i, tail).0, |idx|)
  {
    SyncedSettled(rings[i], idx, tail);
    var rings' := SyncOne(rings, idx, i, tail).0;
    forall j | 0 <= j < |rings'|
      ensures Settled(rings'[j]) && HoldsIovs(rings'[j], |idx|)
    {
      assert j != i ==> rings'[j] == rings[j];
    }
  }

  lemma {:induction false} SyncSettles(rings: seq<Ring>, idx: seq<nat>, tails: seq<nat>, k: nat)
    requires Ready(rings, tails) && k <= |rings| && AllSettled(rings, |idx|)
    requires forall i :: 0 <= i < |rings| ==> Advances(rings[i], tails[i])
    ensures AllSettled(SyncRings(rings, idx, tails, k).0, |idx|)
  {
    hide SyncRings, SyncOne, AllSettled, Ready, Advances;
    if k == 0 {
      SyncNone(rings, idx, tails);
    } else {
      SyncSettles(rings, idx, tails, k - 1);
      var p := SyncRings(rings, idx, tails, k - 1);
      SyncNext(rings, idx, tails, k - 1);
      SyncOneSettles(p.0, p.1, k - 1, tails[k - 1]);
    }
  }

  lemma PoolInRange(s: State, e: Event)
    requires WellShaped(s) && Legal(s, e)
    ensures forall i :: 0 <= i < |Apply(s, e).pool| ==> Apply(s, e).pool[i] < |s.idx|
  {
    if e.FreeQueue? {
      assert forall i :: 0 <= i < |e.q| ==> e.q[i] in e.q;
    }
  }

  /** Every legal step, in any order, keeps the occupied slots of each ring one interval. */
  lemma ApplyKeepsInvariant(s: State, e: Event)
    requires Invariant(s) && Legal(s, e)
    ensures Invariant(Apply(s, e)) && |Apply(s, e).idx| == |s.idx|
  {
    PoolInRange(s, e);
    match e
    case Send(v) => SendKeepsInvariant(s, v);
    case Sync(tails) => SyncSettles(s.rings, s.idx, tails, |s.rings|);
    case _ =>
  }

  // ----- who holds which buffer

  /** w_iov v sits in some transmit slot. */
  ghost predicate Held(s: State, v: nat) {
    exists i: nat, j: nat :: i < |s.rings| && j < |s.rings[i].held| && s.rings[i].held[j] == Some(v)
  }

  /** The map w says in which slot each held w_iov sits; that slot carries the buffer its base points at. Every
      other w_iov carries that buffer itself. */
  ghost predicate Owned(rings: seq<Ring>, idx: seq<nat>, base: seq<nat>, w: map<nat, (nat, nat)>) {
    && |idx| == |base|
    && (forall i: nat, j: nat :: i < |rings| && j < |rings[i].held| && rings[i].held[j].Some? ==>
                                   rings[i].held[j].value in w && w[rings[i].held[j].value] == (i, j))
    && (forall v :: v in w ==> v < |idx| && Seated(rings, v, w[v], base[v]))
    && (forall v: nat :: v < |idx| && v !in w ==> idx[v] == base[v])
  }

  ghost predicate Seated(rings: seq<Ring>, v: nat, at: (nat, nat), x: nat) {
    && at.0 < |rings| && at.1 < |rings[at.0].held| && at.1 < |rings[at.0].slots|
    && rings[at.0].held[at.1] == Some(v) && rings[at.0].slots[at.1] == x
  }

  lemma HeldIffOwned(s: State, w: map<nat, (nat, nat)>, v: nat)
    requires Owned(s.rings, s.idx, s.base, w)
    ensures Held(s, v) <==> v in w
  {
    if v in w {
      assert Seated(s.rings, v, w[v], s.base[v]);
    }
  }

  /** Placing a w_iov that no slot holds into a ring whose current slot is free. */
  lemma PlacedKeepsOwned(rings: seq<Ring>, idx: seq<nat>, base: seq<nat>, w: map<nat, (nat, nat)>, i: nat, v: nat)
    requires Owned(rings, idx, base, w) && i < |rings| && Shaped(rings[i]) && Interval(rings[i])
    requires v < |idx| && v !in w
    ensures var r := rings[i];
            Owned(rings[i := Placed(r, v, idx[v])], idx[v := r.slots[r.cur]], base, w[v := (i, r.cur)])
  {
    hide Interval;
    var r := rings[i];
    CurrentIsFree(r);
    var rings', w' := rings[i := Placed(r, v, idx[v])], w[v := (i, r.cur)];
    forall u | u in w'
      ensures u < |idx| && Seated(rings', u, w'[u], base[u])
    {
      assert u != v ==> Seated(rings, u, w[u], base[u]);
    }
  }

  /** Sending a w_iov that no slot holds. */
  lemma SendKeepsOwned(s: State, v: nat, w: map<nat, (nat, nat)>) returns (w': map<nat, (nat, nat)>)
    requires Invariant(s) && Owned(s.rings, s.idx, s.base, w) && v < |s.idx| && v !in w
    ensures var s' := SendStep(s, v).0; Owned(s'.rings, s'.idx, s'.base, w') && w.Keys <= w'.Keys <= w.Keys + {v}
  {
    hide Owned;
    var p := PickRing(s.rings, s.curTxr, |s.rings|);
    w' := w;
    if p.Some? {
      PlacedKeepsOwned(s.rings, s.idx, s.base, w, p.value, v);
      w' := w[v := (p.value, s.rings[p.value].cur)];
    }
  }

  /** Reclaiming one occupied slot gives its w_iov the buffer its base points at. */
  lemma ReclaimSlotKeepsOwned(rings: seq<Ring>, idx: seq<nat>, base: seq<nat>, w: map<nat, (nat, nat)>, i: nat, j: nat)
    returns (w': map<nat, (nat, nat)>)
    requires Owned(rings, idx, base, w) && i < |rings| && Shaped(rings[i]) && j < |rings[i].slots|
    ensures var p := ReclaimSlot(rings[i], idx, j);
            Owned(rings[i := p.0], p.1, base, w') && w'.Keys <= w.Keys
  {
    var r := rings[i];
    w' := w;
    if r.held[j].Some? && r.held[j].value < |idx| {
      w' := w - {r.held[j].value};
    }
  }

  lemma {:induction false} ReclaimedKeepsOwned(rings: seq<Ring>, idx: seq<nat>, base: seq<nat>,
                                               w: map<nat, (nat, nat)>, i: nat, d: nat)
    returns (w': map<nat, (nat, nat)>)
    requires Owned(rings, idx, base, w) && i < |rings| && Shaped(rings[i]) && d < |rings[i].slots|
    ensures var p := Reclaimed(rings[i], idx, d);
            Owned(rings[i := p.0], p.1, base, w') && w'.Keys <= w.Keys
  {
    w' := w;
    if d == 0 {
      assert rings[i := rings[i]] == rings;
    } else {
      var r := rings[i];
      w' := ReclaimedKeepsOwned(rings, idx, base, w, i, d - 1);
      var p := Reclaimed(r, idx, d - 1);
      var rings1 := rings[i := p.0];
      var j := Ahead(Next(r.saved, |r.slots|), d - 1, |r.slots|);
      w' := ReclaimSlotKeepsOwned(rings1, p.1, base, w', i, j);
      var r' := ReclaimSlot(p.0, p.1, j).0;
      assert rings1[i := r'] == rings[i := r'];
    }
  }

  lemma SyncOneKeepsOwned(rings: seq<Ring>, idx: seq<nat>, base: seq<nat>, w: map<nat, (nat, nat)>, i: nat, tail: nat)
    returns (w': map<nat, (nat, nat)>)
    requires Owned(rings, idx, base, w) && i < |rings| && Shaped(rings[i]) && tail < |rings[i].slots|
    ensures var p := SyncOne(rings, idx, i, tail); Owned(p.0, p.1, base, w') && w'.Keys <= w.Keys
  {
    var r := rings[i];
    var rings1, r1 := rings[i := r.(tail := tail)], r.(tail := tail);
    assert Owned(rings1, idx, base, w) by {
      RingFieldsIrrelevant(rings, idx, base, w, i, r1);
    }
    hide Owned;
    w' := ReclaimedKeepsOwned(rings1, idx, base, w, i, Dist(r.saved, tail, |r.slots|));
    var p := Reclaimed(r1, idx, Dist(r.saved, tail, |r.slots|));
    var rings2 := rings1[i := p.0];
    RingFieldsIrrelevant(rings2, p.1, base, w', i, p.0.(saved := tail));
    assert rings2[i := p.0.(saved := tail)] == rings[i := p.0.(saved := tail)];
  }

  /** Ownership speaks of slots and slot_buf entries only. */
  lemma RingFieldsIrrelevant(rings: seq<Ring>, idx: seq<nat>, base: seq<nat>, w: map<nat, (nat, nat)>, i: nat, r: Ring)
    requires Owned(rings, idx, base, w) && i < |rings| && r.slots == rings[i].slots && r.held == rings[i].held
    ensures Owned(rings[i := r], idx, base, w)
  {
    var rings' := rings[i := r];
    forall v | v in w
      ensures v < |idx| && Seated(rings', v, w[v], base[v])
    {
      assert Seated(rings, v, w[v], base[v]);
    }
  }

  lemma {:induction false} SyncKeepsOwned(rings: seq<Ring>, idx: seq<nat>, tails: seq<nat>, base: seq<nat>,
                                          w: map<nat, (nat, nat)>, k: nat)
    returns (w': map<nat, (nat, nat)>)
    requires Ready(rings, tails) && k <= |rings| && Owned(rings, idx, base, w)
    ensures var p := SyncRings(rings, idx, tails, k); Owned(p.0, p.1, base, w') && w'.Keys <= w.Keys
  {
    hide Owned, SyncOne, SyncRings, Ready;
    w' := w;
    if k == 0 {
      SyncNone(rings, idx, tails);
    } else {
      w' := SyncKeepsOwned(rings, idx, tails, base, w, k - 1);
      var p := SyncRings(rings, idx, tails, k - 1);
      SyncNext(rings, idx, tails, k - 1);
      w' := SyncOneKeepsOwned(p.0, p.1, base, w', k - 1, tails[k - 1]);
    }
  }

  // ----- disciplined use

  /** Pool and handed-out w_iovs do not overlap, and the pool lists each of its w_iovs once. */
  ghost predicate Partition(s: State) {
    Distinct(s.pool) && forall i :: 0 <= i < |s.pool| ==> s.pool[i] !in s.out
  }

  /** Everything that holds between calls under disciplined use. */
  ghost predicate Good(s: State, w: map<nat, (nat, nat)>) {
    && Invariant(s) && Owned(s.rings, s.idx, s.base, w) && Partition(s)
    && forall i :: 0 <= i < |s.pool| ==> s.pool[i] !in w
  }

  /** The application sends only w_iovs it holds, and neither sends again nor gives back one that is still in a slot. */
  ghost predicate Disciplined(s: State, e: Event)
    requires WellShaped(s)
  {
    && Legal(s, e)
    && match e
       case Send(v) => v in s.out && !Held(s, v)
       case Free(v) => !Held(s, v)
       case FreeQueue(q) => forall v :: v in q ==> !Held(s, v)
       case _ => true
  }

  lemma DeliverKeepsOwned(s: State, i: nat, j: nat, w: map<nat, (nat, nat)>)
    requires Good(s, w) && i < |s.rx| && j < |s.rx[i]|
    ensures var s' := DeliverStep(s, i, j); Owned(s'.rings, s'.idx, s'.base, w)
  {
  }

  lemma ApplyKeepsPartition(s: State, e: Event)
    requires WellShaped(s) && Legal(s, e) && Partition(s)
    ensures Partition(Apply(s, e))
  {
  }

  /** Every disciplined step keeps all of it. */
  lemma ApplyKeepsGood(s: State, e: Event, w: map<nat, (nat, nat)>) returns (w': map<nat, (nat, nat)>)
    requires Good(s, w) && Disciplined(s, e)
    ensures Good(Apply(s, e), w')
  {
    ApplyKeepsInvariant(s, e);
    ApplyKeepsPartition(s, e);
    w' := w;
    match e
    case Send(v) =>
      HeldIffOwned(s, w, v);
      w' := SendKeepsOwned(s, v, w);
    case Sync(tails) =>
      w' := SyncKeepsOwned(s.rings, s.idx, tails, s.base, w, |s.rings|);
    case Deliver(i, j) =>
      DeliverKeepsOwned(s, i, j, w);
    case Free(v) =>
      HeldIffOwned(s, w, v);
    case FreeQueue(q) =>
      forall i | 0 <= i < |q|
        ensures q[i] !in w
      {
        assert q[i] in q;
        HeldIffOwned(s, w, q[i]);
      }
    case _ =>
  }
}
