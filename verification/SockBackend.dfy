/** The socket table of the netmap backend as the source keeps it: a khash table that its functions update in place. */
module SockBackend {
  import opened Options
  import KhashRun
  import opened SockTuple
  import SockTable
  import SockRuns
  import Khash

  class Backend {
    var tups: seq<Tuple>
    const table: Khash.Table<Key, nat>
    ghost var owner: map<Key, nat>

    ghost predicate Valid()
      reads this, table, table.flags, table.keys, table.vals
    {
      && table.Valid()
      && SockTable.AllSized(tups) && table.Contents().Keys == owner.Keys
    }

    ghost function View(): SockTable.World
      requires Valid()
      reads this, table, table.flags, table.keys, table.vals
    {
      SockTable.World(tups, table.Contents(), owner)
    }

    constructor ()
      ensures Valid() && View() == SockTable.World([], map[], map[])
      ensures fresh(table.Repr())
    {
      tups, owner := [], map[];
      table := new Khash.Table(KeyHash);
    }

    /** `ins_sock`. */
    method InsSock(s: nat)
      requires Valid() && s < |tups| && table.size < 0x800_0000
      modifies `owner, table, table.flags, table.keys, table.vals
      ensures Valid() && fresh(table.Repr() - old(table.Repr()))
      ensures View() == SockTable.Insert(old(View()), s)
    {
      hide KeyOf, Khash.Table.Valid, Khash.Table.Contents;
      var k := KeyOf(tups[s]);
      var a := KhashRun.StoreKey(table, k, s, 3);
      if a.isNew {
        owner := owner[k := s];
      }
    }

    /** A key leaves the table. */
    method Drop(k: Key)
      requires Valid()
      modifies `owner, table, table.flags
      ensures Valid() && fresh(table.Repr() - old(table.Repr())) && table.size <= old(table.size)
      ensures table.Contents() == old(table.Contents()) - {k} && owner == old(owner) - {k}
    {
      hide Khash.Table.Valid, Khash.Table.Contents, SockTable.AllSized;
      SameKeysLess(table.Contents(), owner, k);
      owner := owner - {k};
      var _ := KhashRun.RemoveKey(table, k);
    }

    /** `rem_sock`. */
    method RemSock(s: nat)
      requires Valid() && s < |tups|
      modifies `owner, table, table.flags
      ensures Valid() && fresh(table.Repr() - old(table.Repr())) && table.size <= old(table.size)
      ensures View() == SockTable.Remove(old(View()), s)
    {
      hide KeyOf, Khash.Table.Valid, Khash.Table.Contents;
      Drop(KeyOf(tups[s]));
    }

    /** `w_get_sock`: an absent remote is all zeros. */
    method GetSock(local: SockAddr, remote: Option<SockAddr>) returns (r: Option<nat>)
      requires Valid() && |local.addr.ip| == 16 && (remote.Some? ==> |remote.value.addr.ip| == 16)
      ensures r == SockTable.Find(View(), SockTable.Query(local, if remote.Some? then remote.value else UNSET))
    {
      var tup := Tuple(local, UNSET, 0);
      if remote.Some? {
        tup := Tuple(local, remote.value, 0);
      }
      r := KhashRun.LookupKey(table, KeyOf(tup));
    }

    /** The two lookups of `udp_rx`. */
    method Demux(local: SockAddr, from: SockAddr) returns (r: Option<nat>)
      requires Valid() && |local.addr.ip| == |from.addr.ip| == 16
      ensures r == SockTable.Deliver(View(), local, from)
    {
      r := GetSock(local, Some(from));
      if r.None? {
        r := GetSock(local, None);
      }
    }

    /** `w_bind` with `backend_bind`; `pick` is the port that `pick_local_port` would give. */
    method Bind(local: SockAddr, scope: nat, pick: bv16) returns (s: nat)
      requires Valid() && |local.addr.ip| == 16 && table.size < 0x800_0000
      modifies `tups, `owner, table, table.flags, table.keys, table.vals
      ensures Valid() && fresh(table.Repr() - old(table.Repr()))
      ensures View() == SockTable.BindStep(old(View()), local, scope, pick) && s == old(|tups|)
    {
      hide KeyOf, Khash.Table.Valid, Khash.Table.Contents, SockTable.Insert;
      ScopeIgnored(local, scope);
      var t := Tuple(local, UNSET, scope);
      var bound := GetSock(local, None);
      if bound.None? && local.port == 0 {
        t := SockTable.WithPort(t, pick);
      }
      s := |tups|;
      tups := tups + [t];
      if bound.None? {
        InsSock(s);
      }
    }

    /** Whether the four-tuple is in the table. */
    method Taken(t: Tuple) returns (taken: bool)
      requires Valid() && Sized(t)
      ensures taken == (KeyOf(t) in table.Contents())
    {
      hide KeyOf, Khash.Table.Valid, Khash.Table.Contents, SockTable.AllSized;
      var found := GetSock(t.local, Some(t.remote));
      QueryIsTuple(t);
      taken := found.Some?;
    }

    /** The loop of `backend_connect`, on the tuple of its socket: `n` is one byte, tested before it is decremented. */
    method Reroll(t: Tuple, picks: seq<bv16>) returns (t': Tuple, n: nat)
      requires Valid() && Sized(t) && |picks| == 200
      ensures var f := SockTable.FirstFree(table.Contents(), t, [t.local.port] + picks, 0);
        t' == SockTable.WithPort(t, ([t.local.port] + picks)[f]) && n == if f == 200 then 255 else 199 - f
    {
      hide KeyOf, Khash.Table.Valid, Khash.Table.Contents, SockTable.FirstFree,
        SockTable.AllSized;
      ghost var tries, m := [t.local.port] + picks, table.Contents();
      ghost var j := 0;
      t', n := t, 200;
      while true
        invariant 0 <= j <= 200 && n == 200 - j && t' == SockTable.WithPort(t, tries[j])
        invariant SockTable.FirstFree(m, t, tries, 0) == SockTable.FirstFree(m, t, tries, j)
        decreases 200 - j
      {
        FreeStep(m, t, tries, j);
        var more := n != 0;
        n := (n + 255) % 256;
        if !more {
          break;
        }
        var taken := Taken(t');
        if !taken {
          break;
        }
        t' := SockTable.WithPort(t', picks[199 - n]);
        j := j + 1;
      }
    }

    /** `backend_connect`, less the address resolution: the socket's tuple already names its peer. */
    method BackendConnect(s: nat, picks: seq<bv16>) returns (r: nat)
      requires Valid() && s < |tups| && |picks| == 200 && table.size < 0x800_0000
      modifies `tups, `owner, table, table.flags, table.keys, table.vals
      ensures Valid() && fresh(table.Repr() - old(table.Repr()))
      ensures var w, t, tries := old(View()), old(tups[s]), [old(tups[s]).local.port] + picks;
        var f := SockTable.FirstFree(w.table, t, tries, 0);
        var w' := SockTable.SetTuple(w, s, SockTable.WithPort(t, tries[f]));
        && SockTable.AllSized(w'.tups)
        && View() == (if f == 199 then w' else SockTable.Insert(w', s))
        && r == if f == 199 then 1 else 0
    {
      hide KeyOf, Khash.Table.Valid, Khash.Table.Contents, SockTable.FirstFree,
        SockTable.Insert;
      var t', n := Reroll(tups[s], picks);
      tups := tups[s := t'];
      if n != 0 {
        InsSock(s);
      }
      r := if n == 0 then 1 else 0;
    }

    /** The second half of `w_connect`, on a socket that has left the table. */
    method ConnectTo(s: nat, peer: SockAddr, picks: seq<bv16>) returns (r: SockTable.Outcome)
      requires Valid() && s < |tups| && |peer.addr.ip| == 16 && |picks| == 200 && table.size < 0x800_0000
      modifies `tups, `owner, table, table.flags, table.keys, table.vals
      ensures Valid() && fresh(table.Repr() - old(table.Repr()))
      ensures (View(), r) ==
        SockTable.Settle(old(View()), s, SockTable.Toward(old(tups[s]), peer), [old(tups[s]).local.port] + picks)
    {
      hide KeyOf, Khash.Table.Valid, Khash.Table.Contents, SockTable.FirstFree,
        SockTable.Insert;
      ghost var w, t, tries := View(), SockTable.Toward(tups[s], peer), [tups[s].local.port] + picks;
      tups := tups[s := SockTable.Toward(tups[s], peer)];
      var e := BackendConnect(s, picks);
      ghost var t' := SockTable.WithPort(t, tries[SockTable.FirstFree(w.table, t, tries, 0)]);
      SetTwice(w, s, t, t');
      SetTwice(w, s, t', SockTable.Unconnected(t'));
      if e != 0 {
        tups := tups[s := SockTable.Unconnected(tups[s])];
        return SockTable.NoPort;
      }
      return SockTable.Connected;
    }

    /** `w_connect`. */
    method Connect(s: nat, peer: SockAddr, picks: seq<bv16>) returns (r: SockTable.Outcome)
      requires Valid() && s < |tups| && |peer.addr.ip| == 16 && |picks| == 200 && table.size < 0x800_0000
      modifies `tups, `owner, table, table.flags, table.keys, table.vals
      ensures Valid() && fresh(table.Repr() - old(table.Repr()))
      ensures (View(), r) == SockTable.ConnectStep(old(View()), s, peer, picks)
    {
      hide KeyOf, Khash.Table.Valid, Khash.Table.Contents, SockTable.FirstFree,
        SockTable.Settle, SockTable.Remove;
      if tups[s].remote.port != 0 {
        return SockTable.AlreadyConnected;
      }
      SockTable.RemoveKeepsTuples(View(), s);
      RemSock(s);
      if !SockTable.KnownFamily(peer.addr) {
        tups := tups[s := SockTable.Unconnected(tups[s])];
        return SockTable.UnknownFamily;
      }
      r := ConnectTo(s, peer, picks);
    }

    /** `w_close`, less the release of the socket's memory. */
    method Close(s: nat)
      requires Valid() && s < |tups|
      modifies `owner, table, table.flags
      ensures Valid() && fresh(table.Repr() - old(table.Repr()))
      ensures View() == SockTable.Remove(old(View()), s)
    {
      RemSock(s);
    }

    /** Any operation on the table takes it to the next state of the runs in SockRuns. */
    method Perform(op: SockTable.Op)
      requires Valid() && SockTable.Proper(View(), op) && table.size < 0x800_0000
      modifies `tups, `owner, table, table.flags, table.keys, table.vals
      ensures Valid() && fresh(table.Repr() - old(table.Repr()))
      ensures View() == SockTable.Apply(old(View()), op)
    {
      hide Khash.Table.Valid, Khash.Table.Contents, SockTable.ConnectStep, SockTable.BindStep, SockTable.Remove;
      match op {
        case Open(local, scope, pick) =>
          var _ := Bind(local, scope, pick);
        case Connect(s, peer, picks) =>
          var _ := Connect(s, peer, picks);
        case Close(s) =>
          Close(s);
      }
    }
  }

  /** Each operation finds fewer than 2^27 stored sockets. */
  ghost predicate Roomy(ops: seq<SockTable.Op>) {
    forall i :: 0 <= i < |ops| ==> |SockRuns.After(SockRuns.START, ops[..i]).table| < 0x800_0000
  }

  /** Any run of operations on a new backend, disciplined or not, takes it to the final state of that run. */
  method Run(ops: seq<SockTable.Op>) returns (b: Backend)
    requires SockRuns.ProperRun(SockRuns.START, ops) && Roomy(ops)
    ensures b.Valid() && b.View() == SockRuns.After(SockRuns.START, ops)
  {
    hide Khash.Table.Valid, Khash.Table.Contents, SockTable.Apply, SockTable.Proper, SockTable.AllSized, SockRuns.After;
    b := new Backend();
    NextState(ops, 0);
    for i := 0 to |ops|
      invariant fresh(b) && fresh(b.table.Repr())
      invariant b.Valid() && b.View() == SockRuns.After(SockRuns.START, ops[..i])
    {
      NextState(ops, i);
      b.Perform(ops[i]);
    }
    assert ops[..|ops|] == ops;
  }

  lemma NextState(ops: seq<SockTable.Op>, i: nat)
    requires SockRuns.ProperRun(SockRuns.START, ops) && i <= |ops|
    ensures i == 0 ==> SockRuns.After(SockRuns.START, ops[..i]) == SockRuns.START
    ensures i < |ops| ==>
              SockRuns.After(SockRuns.START, ops[..i + 1]) ==
              SockTable.Apply(SockRuns.After(SockRuns.START, ops[..i]), ops[i])
  {
    hide SockTable.Apply, SockTable.Proper, SockTable.AllSized;
    if i < |ops| {
      assert ops[..i + 1][..i] == ops[..i];
    }
  }

  /** After a disciplined run, the lookups of `udp_rx` on the khash table find the socket in use that is connected
      to the sender, if there is one, otherwise the one only bound to the destination. */
  method RunAndDemux(ops: seq<SockTable.Op>, local: SockAddr, from: SockAddr) returns (r: Option<nat>)
    requires SockRuns.DisciplinedRun(SockRuns.START, ops) && Roomy(ops)
    requires |local.addr.ip| == |from.addr.ip| == 16
    ensures var w, live := SockRuns.After(SockRuns.START, ops), SockRuns.InUse(SockRuns.START, ops, {});
      && (forall x :: x in live ==> x < |w.tups|)
      && forall s :: r == Some(s) <==>
           && s in live
           && (|| TupleCmp(w.tups[s], SockTable.Query(local, from))
               || (&& TupleCmp(w.tups[s], SockTable.Query(local, UNSET))
                   && forall x :: x in live ==> !TupleCmp(w.tups[x], SockTable.Query(local, from))))
    ensures r.Some? ==>
      var t := SockRuns.After(SockRuns.START, ops).tups[r.value];
      && t.local.port == local.port && t.local.addr.af == local.addr.af
      && (|| (t.remote.port == from.port && t.remote.addr.af == from.addr.af)
          || (t.remote.port == 0 && t.remote.addr.af == 0))
  {
    hide SockTable.Own, SockTable.Deliver, SockRuns.After, SockRuns.InUse, SockRuns.Disciplined, TupleCmp,
      Khash.Table.Valid, Khash.Table.Contents, SockTable.Proper, SockTable.AllSized;
    var b := Run(ops);
    r := b.Demux(local, from);
    forall s: nat {
      SockRuns.RunDelivers(ops, local, from, s);
    }
    if r.Some? {
      SockRuns.RunDelivers(ops, local, from, r.value);
      MatchPorts(b.View(), r.value, local, from);
    }
  }

  lemma MatchPorts(w: SockTable.World, s: nat, local: SockAddr, from: SockAddr)
    requires SockTable.AllSized(w.tups) && s < |w.tups| && |local.addr.ip| == |from.addr.ip| == 16
    requires TupleCmp(w.tups[s], SockTable.Query(local, from)) || TupleCmp(w.tups[s], SockTable.Query(local, UNSET))
    ensures var t := w.tups[s];
      && t.local.port == local.port && t.local.addr.af == local.addr.af
      && (|| (t.remote.port == from.port && t.remote.addr.af == from.addr.af)
          || (t.remote.port == 0 && t.remote.addr.af == 0))
  {
    hide TupleCmp;
    CmpFields(w.tups[s], SockTable.Query(local, from));
    CmpFields(w.tups[s], SockTable.Query(local, UNSET));
  }

  lemma SetTwice(w: SockTable.World, s: nat, a: Tuple, b: Tuple)
    requires s < |w.tups|
    ensures SockTable.SetTuple(SockTable.SetTuple(w, s, a), s, b) == SockTable.SetTuple(w, s, b)
  {
    assert w.tups[s := a][s := b] == w.tups[s := b];
  }

  lemma FreeStep(m: map<Key, nat>, t: Tuple, tries: seq<bv16>, j: nat)
    requires Sized(t) && |tries| == 201 && j <= 200
    ensures SockTable.FirstFree(m, t, tries, j) ==
            if j == 200 || KeyOf(SockTable.WithPort(t, tries[j])) !in m then j
            else SockTable.FirstFree(m, t, tries, j + 1)
  {
  }

  lemma QueryIsTuple(t: Tuple)
    requires Sized(t)
    ensures KeyOf(SockTable.Query(t.local, t.remote)) == KeyOf(t)
  {
  }

  lemma SmallerLess(s: set<Key>, k: Key)
    ensures |s - {k}| <= |s|
  {
  }

  lemma SameKeysLess(m: map<Key, nat>, o: map<Key, nat>, k: Key)
    requires m.Keys == o.Keys
    ensures (m - {k}).Keys == (o - {k}).Keys && |m - {k}| <= |m|
  {
    assert |m - {k}| == |m.Keys - {k}| by { assert (m - {k}).Keys == m.Keys - {k}; }
    SmallerLess(m.Keys, k);
  }

  lemma ScopeIgnored(local: SockAddr, scope: nat)
    requires |local.addr.ip| == 16
    ensures KeyOf(Tuple(local, UNSET, scope)) == KeyOf(Tuple(local, UNSET, 0))
  {
  }
}
