/** The netmap backend: `eth_tx`, `w_nic_tx`, `udp_rx`, the pool, and `eth_tx_and_free`, changing the engine in
    place. */
module NetmapEngine {
  import opened Options
  import opened NetmapRing
  import opened NetmapProtocol
  import opened NetmapSafety
  import opened NetmapRuns

  ghost function Syncs(syncs: seq<seq<nat>>): seq<Event> {
    seq(|syncs|, i requires 0 <= i < |syncs| => Sync(syncs[i]))
  }

  lemma FirstSync(s: State, syncs: seq<seq<nat>>)
    requires |syncs| > 0 && LegalRun(s, Syncs(syncs))
    ensures WellShaped(s) && Legal(s, Sync(syncs[0])) && LegalRun(Apply(s, Sync(syncs[0])), Syncs(syncs[1..]))
  {
    assert Syncs(syncs)[1..] == Syncs(syncs[1..]);
  }

  lemma GoodAgrees(s: State, w: map<nat, (nat, nat)>, v: nat)
    requires Good(s, w) && v < |s.idx| && !Held(s, v)
    ensures WellShaped(s) && |s.idx| == |s.base| && s.idx[v] == s.base[v]
  {
    HeldIffOwned(s, w, v);
  }

  lemma GoodIsInvariant(s: State, w: map<nat, (nat, nat)>)
    requires Good(s, w)
    ensures Invariant(s) && |s.idx| == |s.base|
  {
  }

  lemma SendFrame(s: State, v: nat)
    requires WellShaped(s) && v < |s.idx|
    ensures var t := SendStep(s, v).0; t.base == s.base && t.pool == s.pool && t.out == s.out && |t.idx| == |s.idx|
  {
  }

  lemma GiveBack(s: State, w: map<nat, (nat, nat)>, v: nat)
    requires Good(s, w) && OneOwner(s) && v in s.out && v < |s.idx| && !Held(s, v)
    ensures var t := s.(pool := [v] + s.pool, out := s.out - {v}); Good(t, w) && OneOwner(t) && !Held(t, v)
  {
    HeldIffOwned(s, w, v);
    var t := s.(pool := [v] + s.pool, out := s.out - {v});
    HeldIffOwned(t, w, v);
    assert forall x: nat :: Owners(t, x) == Owners(s, x);
  }

  class Engine {
    var rings: seq<Ring>
    var curTxr: nat
    var rx: seq<seq<nat>>
    var idx: seq<nat>
    var base: seq<nat>
    var pool: seq<nat>
    ghost var out: set<nat>

    ghost function S(): State
      reads this
    {
      State(rings, curTxr, rx, idx, base, pool, out)
    }

    /** The ring search of `eth_tx`: the cursor moves on past full rings, and all the way round if all are full. */
    method SeekRing() returns (found: bool)
      requires WellShaped(S())
      modifies this`curTxr
      ensures found == PickRing(rings, old(curTxr), |rings|).Some?
      ensures curTxr == if found then PickRing(rings, old(curTxr), |rings|).value else old(curTxr)
    {
      var k := 0;
      ghost var n, c0 := |rings|, curTxr;
      while k < |rings|
        invariant k <= n && curTxr < n
        invariant PickRing(rings, c0, n) == PickRing(rings, curTxr, n - k)
        invariant curTxr == (if c0 + k < n then c0 + k else c0 + k - n)
        decreases n - k
      {
        if !Full(rings[curTxr]) {
          break;
        }
        curTxr := Next(curTxr, |rings|);
        k := k + 1;
      }
      found := k < |rings|;
    }

    /** `eth_tx`: look for a ring with space, swap buffers with its current slot, advance the ring. It answers false
        exactly when all rings are full; the ring it takes is the first one with space from the current one on. */
    method EthTx(v: nat) returns (ok: bool)
      requires WellShaped(S()) && v < |idx|
      modifies this
      ensures (S(), ok) == SendStep(old(S()), v)
      ensures ok <==> exists i :: 0 <= i < |old(rings)| && !Full(old(rings)[i])
      ensures ok ==>
                && curTxr < |rings| == |old(rings)|
                && forall i: nat ::
                     i < |old(rings)| && (i - old(curTxr)) % |old(rings)| < (curTxr - old(curTxr)) % |old(rings)| ==>
                       Full(old(rings)[i])
      ensures ok ==>
                var r := old(rings)[curTxr];
                && rings[curTxr] == Ring((r.cur + 1) % |r.slots|, r.tail, r.saved,
                                         r.slots[r.cur := old(idx)[v]], r.held[r.cur := Some(v)])
                && (forall i :: 0 <= i < |rings| && i != curTxr ==> rings[i] == old(rings)[i])
                && idx == old(idx)[v := r.slots[r.cur]]
                && rx == old(rx) && base == old(base) && pool == old(pool) && out == old(out)
      ensures !ok ==> S() == old(S())
    {
      hide PickRing, Full, Dist, Next;
      SendPlaces(S(), v);
      ok := SeekRing();
      if !ok {
        return;
      }
      var r := rings[curTxr];
      var slot := r.cur;
      var x := r.slots[slot];
      rings := rings[curTxr := r.(held := r.held[slot := Some(v)], slots := r.slots[slot := idx[v]],
      cur := Next(slot, |r.slots|))];
      idx := idx[v := x];
    }

    /** The inner loop of `w_nic_tx` on ring i: walk from the remembered tail to the tail, giving each w_iov its
        buffer back. The slot_buf entry it follows is never null. */
    method Reclaim(i: nat)
      requires i < |rings| && Shaped(rings[i]) && HoldsIovs(rings[i], |idx|)
      requires Interval(rings[i]) && Dist(rings[i].saved, rings[i].tail, |rings[i].slots|) <= Pending(rings[i])
      modifies this`rings, this`idx
      ensures var r := old(rings[i]); var p := Reclaimed(r, old(idx), Dist(r.saved, r.tail, |r.slots|));
              rings == old(rings)[i := p.0] && idx == p.1
    {
      hide Interval, IntervalFrom, Dist, Reclaimed, Ahead;
      ghost var r0, idx0 := rings[i], idx;
      var n := |rings[i].slots|;
      var j := Next(rings[i].saved, n);
      ghost var d: nat, end := 0, Dist(r0.saved, r0.tail, n);
      assert rings[i := r0] == rings;
      ReclaimedNext(r0, idx0, 0);
      AheadStart(j, n);
      AheadEnd(r0.saved, r0.tail, d, n);
      while j != Next(rings[i].tail, n)
        invariant d <= end && j == Ahead(Next(r0.saved, n), d, n) && (j == Next(r0.tail, n) <==> d == end)
        invariant rings == old(rings)[i := Reclaimed(r0, idx0, d).0] && idx == Reclaimed(r0, idx0, d).1
        decreases end - d
      {
        ReclaimedInterval(r0, idx0, d);
        ReclaimedNext(r0, idx0, d);
        var r := rings[i];
        var v := r.held[j].value;
        var x := r.slots[j];
        rings := rings[i := r.(slots := r.slots[j := idx[v]], held := r.held[j := None])];
        idx := idx[v := x];
        AheadStep(Next(r0.saved, n), d, n);
        AheadEnd(r0.saved, r0.tail, d + 1, n);
        j := Next(j, n);
        d := d + 1;
      }
    }

    /** One ring of `w_nic_tx`: the tail has moved, reclaim, remember the tail. */
    method SyncRing(i: nat, tail: nat)
      requires i < |rings| && Shaped(rings[i]) && HoldsIovs(rings[i], |idx|)
      requires Interval(rings[i]) && Advances(rings[i], tail)
      modifies this`rings, this`idx
      ensures (rings, idx) == SyncOne(old(rings), old(idx), i, tail)
    {
      hide Interval;
      ghost var rings0, r0 := rings, rings[i];
      ghost var r1 := r0.(tail := tail);
      TailIrrelevant(r0, tail);
      rings := rings[i := rings[i].(tail := tail)];
      Reclaim(i);
      rings := rings[i := rings[i].(saved := tail)];
      assert rings == rings0[i := rings[i]];
    }

    /** `w_nic_tx` after the kernel moved the tails: reclaim on every ring and remember the tails. */
    method NicTx(tails: seq<nat>)
      requires Invariant(S()) && Legal(S(), Sync(tails))
      modifies this
      ensures S() == Apply(old(S()), Sync(tails))
      ensures |rings| == |old(rings)| == |tails|
      ensures forall i :: 0 <= i < |rings| ==>
                rings[i].tail == rings[i].saved == tails[i] && rings[i].cur == old(rings)[i].cur
      ensures rx == old(rx) && base == old(base) && pool == old(pool) && out == old(out) && curTxr == old(curTxr)
    {
      hide Interval, SyncOne, SyncRings, Advances, HoldsIovs, Pending, Ready;
      ghost var rings0, idx0 := rings, idx;
      SyncNone(rings0, idx0, tails);
      SyncTails(S(), tails);
      for i := 0 to |rings|
        invariant |rings| == |rings0| && AllSettled(rings, |idx|)
        invariant S() == old(S()).(rings := rings, idx := idx)
        invariant (rings, idx) == SyncRings(rings0, idx0, tails, i)
      {
        SyncNext(rings0, idx0, tails, i);
        SyncOneSettles(rings, idx, i, tails[i]);
        SyncRing(i, tails[i]);
      }
    }

    /** `w_alloc_iov_base`, as far as buffers go: take the first w_iov of the pool, if any. */
    method AllocIovBase() returns (v: Option<nat>)
      modifies this`pool
      ensures if |old(pool)| == 0 then v == None && pool == old(pool)
              else v == Some(old(pool)[0]) && pool == old(pool)[1..]
    {
      if |pool| == 0 {
        return None;
      }
      v := Some(pool[0]);
      pool := pool[1..];
    }

    /** `w_alloc_iov`: the w_iov is now the application's. */
    method AllocIov() returns (v: Option<nat>)
      requires WellShaped(S())
      modifies this`pool, this`out
      ensures S() == Apply(old(S()), Alloc) && v.Some? == (|old(pool)| > 0)
      ensures v.Some? ==> v.value == old(pool)[0] && pool == old(pool)[1..] && out == old(out) + {v.value}
      ensures v.None? ==> pool == [] && out == old(out)
    {
      v := AllocIovBase();
      if v.Some? {
        out := out + {v.value};
      }
    }

    /** `w_free_iov`. */
    method FreeIov(v: nat)
      requires WellShaped(S()) && Legal(S(), Free(v))
      modifies this`pool, this`out
      ensures S() == Apply(old(S()), Free(v))
      ensures pool == [v] + old(pool) && out == old(out) - {v}
    {
      pool := [v] + pool;
      out := out - {v};
    }

    /** `udp_rx` for the frame in receive slot (i, j), where `accept` says whether all checks and the socket lookup
        succeed. The w_iov is taken from the pool first, and on the reject paths it is not given back. */
    method UdpRx(i: nat, j: nat, accept: bool) returns (delivered: bool)
      requires WellShaped(S()) && i < |rx| && j < |rx[i]|
      modifies this
      ensures delivered == (accept && |old(pool)| > 0)
      ensures S() == Apply(old(S()), if accept then Deliver(i, j) else Reject)
      ensures rings == old(rings) && curTxr == old(curTxr)
      ensures delivered ==>
                var v := old(pool)[0];
                && idx == old(idx)[v := old(rx[i][j])] && base == old(base)[v := old(rx[i][j])]
                && rx == old(rx)[i := old(rx[i])[j := old(idx)[v]]]
                && pool == old(pool)[1..] && out == old(out) + {v}
      ensures !delivered ==>
                && idx == old(idx) && base == old(base) && rx == old(rx) && out == old(out)
                && pool == if |old(pool)| == 0 then [] else old(pool)[1..]
    {
      var v := AllocIovBase();
      if v.None? {
        return false;
      }
      if !accept {
        return false;
      }
      base := base[v.value := rx[i][j]];
      var tmp := idx[v.value];
      idx := idx[v.value := rx[i][j]];
      rx := rx[i := rx[i][j := tmp]];
      out := out + {v.value};
      return true;
    }

    /** `eth_tx_and_free`, watched for as many syncs as the kernel answers: when it gives the w_iov back to the pool, no
        transmit slot holds it, so the pool never contains a w_iov whose frame is still queued. Without a further sync
        pending it has not returned only because the ring still holds the w_iov. */
    method EthTxAndFree(v: nat, syncs: seq<seq<nat>>, ghost w0: map<nat, (nat, nat)>)
      returns (freed: bool, ghost w: map<nat, (nat, nat)>)
      requires Good(S(), w0) && OneOwner(S()) && v < |idx| && Disciplined(S(), Send(v))
      requires LegalRun(SendStep(S(), v).0, Syncs(syncs))
      modifies this
      ensures Good(S(), w) && OneOwner(S())
      ensures |idx| == |old(idx)|
      ensures freed ==> pool == [v] + old(pool) && out == old(out) - {v} && !Held(S(), v) && idx[v] == old(idx[v])
      ensures !freed ==> pool == old(pool) && out == old(out) && (|syncs| > 0 ==> Held(S(), v))
    {
      hide Good, OneOwner, Held, SendStep, SyncRings;
      var orig := idx[v];
      GoodAgrees(S(), w0, v);
      w := ApplyKeepsGood(S(), Send(v), w0);
      ApplyKeepsOneOwner(S(), Send(v));
      SendFrame(S(), v);
      var _ := EthTx(v);
      var k := 0;
      freed := false;
      while k < |syncs| && !freed
        invariant k <= |syncs| && |idx| == |base| == |old(idx)| && base[v] == orig
        invariant pool == old(pool) && out == old(out)
        invariant Good(S(), w) && OneOwner(S()) && LegalRun(S(), Syncs(syncs[k..]))
        invariant k > 0 ==> (freed <==> !Held(S(), v)) && (freed <==> idx[v] == orig)
        invariant k == 0 ==> !freed
        decreases |syncs| - k
      {
        ghost var s := S();
        FirstSync(s, syncs[k..]);
        GoodIsInvariant(s, w);
        w := ApplyKeepsGood(s, Sync(syncs[k]), w);
        ApplyKeepsOneOwner(s, Sync(syncs[k]));
        NicTx(syncs[k]);
        assert syncs[k..][1..] == syncs[k + 1..];
        k := k + 1;
        AgreesIffNotHeld(S(), w, v);
        freed := idx[v] == orig;
      }
      if freed {
        GiveBack(S(), w, v);
        pool := [v] + pool;
        out := out - {v};
      }
    }
  }
}
