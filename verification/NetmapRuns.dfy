/** Whole runs of the buffer-swap protocol. */
module NetmapRuns {
  import opened Options
  import opened NetmapRing
  import opened NetmapProtocol
  import opened NetmapSafety

  // ----- runs

  ghost predicate LegalRun(s: State, es: seq<Event>)
    decreases |es|
  {
    |es| == 0 || (WellShaped(s) && Legal(s, es[0]) && LegalRun(Apply(s, es[0]), es[1..]))
  }

  ghost predicate DisciplinedRun(s: State, es: seq<Event>)
    decreases |es|
  {
    |es| == 0 || (WellShaped(s) && Disciplined(s, es[0]) && DisciplinedRun(Apply(s, es[0]), es[1..]))
  }

  ghost function Final(s: State, es: seq<Event>): State
    requires LegalRun(s, es)
    decreases |es|
  {
    if |es| == 0 then s else Final(Apply(s, es[0]), es[1..])
  }

  lemma {:induction false} DisciplinedIsLegal(s: State, es: seq<Event>)
    requires DisciplinedRun(s, es)
    ensures LegalRun(s, es)
    decreases |es|
  {
    if |es| > 0 {
      DisciplinedIsLegal(Apply(s, es[0]), es[1..]);
    }
  }

  /** In every interleaving of allocations, frees, sends, syncs and receptions, no buffer gains or loses an owner. */
  lemma {:induction false} RunKeepsOwners(s: State, es: seq<Event>, x: nat)
    requires LegalRun(s, es)
    ensures Owners(Final(s, es), x) == Owners(s, x)
    decreases |es|
  {
    if |es| > 0 {
      ApplyKeepsOwners(s, es[0], x);
      RunKeepsOwners(Apply(s, es[0]), es[1..], x);
    }
  }

  /** In every reachable state the occupied slots of each ring are the interval after the remembered tail. */
  lemma {:induction false} RunKeepsInvariant(s: State, es: seq<Event>)
    requires Invariant(s) && LegalRun(s, es)
    ensures Invariant(Final(s, es)) && |Final(s, es).idx| == |s.idx|
    decreases |es|
  {
    if |es| > 0 {
      ApplyKeepsInvariant(s, es[0]);
      RunKeepsInvariant(Apply(s, es[0]), es[1..]);
    }
  }

  lemma {:induction false} RunKeepsGood(s: State, es: seq<Event>, w: map<nat, (nat, nat)>)
    returns (w': map<nat, (nat, nat)>)
    requires Good(s, w) && LegalRun(s, es) && DisciplinedRun(s, es)
    ensures Good(Final(s, es), w')
    decreases |es|
  {
    w' := w;
    if |es| > 0 {
      w' := ApplyKeepsGood(s, es[0], w);
      w' := RunKeepsGood(Apply(s, es[0]), es[1..], w');
    }
  }

  // ----- no buffer has two owners

  ghost predicate OneOwner(s: State) {
    forall x: nat :: Owners(s, x) <= 1
  }

  lemma {:induction false} RingOwnersAtLeast(rings: seq<Ring>, i: nat, x: nat)
    requires i < |rings|
    ensures multiset(rings[i].slots)[x] <= RingOwners(rings, x)
  {
    var last := |rings| - 1;
    if i < last {
      RingOwnersAtLeast(rings[..last], i, x);
    }
  }

  lemma {:induction false} RxOwnersAtLeast(rx: seq<seq<nat>>, i: nat, x: nat)
    requires i < |rx|
    ensures multiset(rx[i])[x] <= RxOwners(rx, x)
  {
    var last := |rx| - 1;
    if i < last {
      RxOwnersAtLeast(rx[..last], i, x);
    }
  }

  /** With one owner each, a w_iov never shares its buffer with another w_iov, a transmit slot or a receive slot. */
  lemma NeverShared(s: State, v: nat)
    requires OneOwner(s) && v < |s.idx|
    ensures forall u: nat :: u < |s.idx| && u != v ==> s.idx[u] != s.idx[v]
    ensures forall i: nat, j: nat :: i < |s.rings| && j < |s.rings[i].slots| ==> s.rings[i].slots[j] != s.idx[v]
    ensures forall i: nat, j: nat :: i < |s.rx| && j < |s.rx[i]| ==> s.rx[i][j] != s.idx[v]
  {
    var x := s.idx[v];
    assert Owners(s, x) <= 1;
    assert x in multiset(s.idx);
    forall u: nat | u < |s.idx| && u != v
      ensures s.idx[u] != x
    {
      if s.idx[u] == x {
        TwiceInSeq(s.idx, u, v);
      }
    }
    forall i: nat, j: nat | i < |s.rings| && j < |s.rings[i].slots|
      ensures s.rings[i].slots[j] != x
    {
      RingOwnersAtLeast(s.rings, i, x);
      assert s.rings[i].slots[j] in multiset(s.rings[i].slots);
    }
    forall i: nat, j: nat | i < |s.rx| && j < |s.rx[i]|
      ensures s.rx[i][j] != x
    {
      RxOwnersAtLeast(s.rx, i, x);
      assert s.rx[i][j] in multiset(s.rx[i]);
    }
  }

  lemma TwiceInSeq(a: seq<nat>, i: nat, j: nat)
    requires i < |a| && j < |a| && i != j && a[i] == a[j]
    ensures multiset(a)[a[i]] >= 2
  {
    var lo, hi := if i < j then i else j, if i < j then j else i;
    assert a == a[..lo] + [a[lo]] + a[lo + 1..hi] + [a[hi]] + a[hi + 1..];
  }

  /** The test `eth_tx_and_free` waits on: a w_iov carries the buffer its base points at exactly when no slot holds
      it. */
  lemma AgreesIffNotHeld(s: State, w: map<nat, (nat, nat)>, v: nat)
    requires Good(s, w) && OneOwner(s) && v < |s.idx|
    ensures s.idx[v] == s.base[v] <==> !Held(s, v)
  {
    HeldIffOwned(s, w, v);
    NeverShared(s, v);
    if v in w {
      assert Seated(s.rings, v, w[v], s.base[v]);
    }
  }

  /** Main result: over every disciplined run from a good state with one owner per buffer, every buffer still has at
      most one owner, and each w_iov has its own buffer back exactly when it is no longer in a transmit slot. */
  lemma RunRestores(s: State, es: seq<Event>, w: map<nat, (nat, nat)>)
    requires Good(s, w) && OneOwner(s) && DisciplinedRun(s, es)
    ensures LegalRun(s, es) && OneOwner(Final(s, es))
    ensures |Final(s, es).idx| == |Final(s, es).base| == |s.idx|
    ensures forall v: nat :: v < |s.idx| ==>
                               (Final(s, es).idx[v] == Final(s, es).base[v] <==> !Held(Final(s, es), v))
  {
    DisciplinedIsLegal(s, es);
    var w' := RunKeepsGood(s, es, w);
    RunKeepsInvariant(s, es);
    var t := Final(s, es);
    forall x: nat
      ensures Owners(t, x) <= 1
    {
      RunKeepsOwners(s, es, x);
    }
    forall v: nat | v < |s.idx|
      ensures t.idx[v] == t.base[v] <==> !Held(t, v)
    {
      AgreesIffNotHeld(t, w', v);
    }
  }

  // ----- lost w_iovs

  /** How many receptions of a run were rejected after a w_iov had been taken from the pool. */
  ghost function Losses(s: State, es: seq<Event>): nat
    requires LegalRun(s, es)
    decreases |es|
  {
    if |es| == 0 then 0
    else (if es[0].Reject? && |s.pool| > 0 then 1 else 0) + Losses(Apply(s, es[0]), es[1..])
  }

  lemma {:induction false} SetOfDistinct(q: seq<nat>)
    requires Distinct(q)
    ensures |SetOf(q)| == |q|
  {
    if |q| > 0 {
      var last := |q| - 1;
      SetOfDistinct(q[..last]);
      assert SetOf(q) == SetOf(q[..last]) + {q[last]};
      assert q[last] !in SetOf(q[..last]);
    }
  }

  lemma ApplyAccounts(s: State, e: Event)
    requires WellShaped(s) && Legal(s, e) && Partition(s)
    ensures |Apply(s, e).pool| + |Apply(s, e).out| + (if e.Reject? && |s.pool| > 0 then 1 else 0) == |s.pool| + |s.out|
  {
    if e.FreeQueue? {
      SetOfDistinct(e.q);
      var r := SetOf(e.q);
      assert r <= s.out;
      assert |s.out - r| == |s.out| - |r|;
    }
  }

  /** The w_iovs that leave both pool and application are exactly those of the rejected receptions. */
  lemma {:induction false} RunLosesRejects(s: State, es: seq<Event>)
    requires LegalRun(s, es) && Partition(s)
    ensures |Final(s, es).pool| + |Final(s, es).out| + Losses(s, es) == |s.pool| + |s.out|
    decreases |es|
  {
    if |es| > 0 {
      ApplyAccounts(s, es[0]);
      ApplyKeepsPartition(s, es[0]);
      RunLosesRejects(Apply(s, es[0]), es[1..]);
    }
  }

  // ----- the start

  /** What `backend_init` leaves behind: cur is one past the tail, no slot holds a w_iov, every w_iov is in the pool. */
  ghost predicate Fresh(s: State) {
    && WellShaped(s) && s.idx == s.base && s.out == {} && Distinct(s.pool)
    && forall i :: 0 <= i < |s.rings| ==> FreshRing(s.rings[i])
  }

  ghost predicate FreshRing(r: Ring) {
    && Shaped(r) && r.saved == r.tail && r.cur == Next(r.tail, |r.slots|)
    && forall j :: 0 <= j < |r.held| ==> r.held[j] == None
  }

  lemma FreshIsGood(s: State)
    requires Fresh(s)
    ensures Good(s, map[])
  {
  }

  lemma ApplyKeepsOneOwner(s: State, e: Event)
    requires WellShaped(s) && Legal(s, e) && OneOwner(s)
    ensures OneOwner(Apply(s, e))
  {
    forall x: nat
      ensures Owners(Apply(s, e), x) <= 1
    {
      ApplyKeepsOwners(s, e, x);
    }
  }
}
