/** Whole runs of binds, connects and closes on the socket table. */
module SockRuns {
  import opened Options
  import opened SockTuple
  import opened SockTable

  /** The operation ends with a free port, binds an address that is not bound, or is on a socket that is stored. */
  ghost predicate Disciplined(w: World, op: Op): (ok: bool)
    requires AllSized(w.tups)
    ensures ok ==> Proper(w, op)
  {
    && Proper(w, op)
    && FreePort(w, op)
    && match op
       case Open(local, scope, _) => Find(w, Tuple(local, UNSET, scope)) .None?
       case Connect(s, _, _) => Stored(w, s)
       case Close(s) => Stored(w, s)
  }

  /** The sockets in use after the operation: a refused connect takes its socket out of use. */
  ghost function LiveAfter(w: World, op: Op, live: set<nat>): set<nat>
    requires AllSized(w.tups) && Proper(w, op)
  {
    match op
    case Open(_, _, _) => live + {|w.tups|}
    case Connect(s, peer, picks) =>
      var outcome := ConnectStep(w, s, peer, picks).1;
      if outcome == NoPort || outcome == UnknownFamily then live - {s} else live
    case Close(s) => live - {s}
  }

  lemma OpenTracks(w: World, local: SockAddr, scope: nat, pick: bv16, live: set<nat>)
    requires Tracks(w, live) && Disciplined(w, Open(local, scope, pick))
    ensures Tracks(BindStep(w, local, scope, pick), live + {|w.tups|})
  {
    hide KeyOf, Own, Stored, Insert, Tracks;
    var t := Tuple(local, UNSET, scope);
    var t' := if local.port == 0 then WithPort(t, pick) else t;
    TracksOwn(w, live);
    AppendTracks(w, t', live);
    TracksOwn(AddTuple(w, t'), live);
    InsertTracks(AddTuple(w, t'), |w.tups|, live);
  }

  lemma TracksOwn(w: World, live: set<nat>)
    requires Tracks(w, live)
    ensures Own(w)
  {
  }

  lemma TracksStored(w: World, live: set<nat>, s: nat)
    requires Tracks(w, live)
    ensures Own(w) && (s in live <==> Stored(w, s))
  {
  }

  lemma SettleTracks(w: World, s: nat, t: Tuple, tries: seq<bv16>, live: set<nat>)
    requires Tracks(w, live) && s < |w.tups| && s !in live && Sized(t) && |tries| == 201 && Reaches(w, t, tries)
    ensures AllSized(w.tups)
    ensures var (w', outcome) := Settle(w, s, t, tries); Tracks(w', if outcome == NoPort then live else live + {s})
  {
    hide KeyOf, Own, Stored, Insert, Tracks, FirstFree, AllSized;
    TracksOwn(w, live);
    var f := FirstFree(w.table, t, tries, 0);
    var t' := WithPort(t, tries[f]);
    if f == 199 {
      ChangeTracks(w, s, Unconnected(t'), live);
    } else {
      ChangeTracks(w, s, t', live);
      TracksOwn(SetTuple(w, s, t'), live);
      InsertTracks(SetTuple(w, s, t'), s, live);
    }
  }

  lemma ConnectTracks(w: World, s: nat, peer: SockAddr, picks: seq<bv16>, live: set<nat>)
    requires Tracks(w, live) && Disciplined(w, Connect(s, peer, picks))
    ensures Tracks(ConnectStep(w, s, peer, picks).0, LiveAfter(w, Connect(s, peer, picks), live))
  {
    hide KeyOf, Own, Stored, Remove, Tracks, FirstFree, Settle, Reaches;
    TracksStored(w, live, s);
    var t := w.tups[s];
    if t.remote.port == 0 {
      RemoveTracks(w, s, live);
      RemoveKeepsTuples(w, s);
      if KnownFamily(peer.addr) {
        SettleTracks(Remove(w, s), s, Toward(t, peer), [t.local.port] + picks, live - {s});
        SettleOutcome(Remove(w, s), s, Toward(t, peer), [t.local.port] + picks);
        assert live - {s} + {s} == live;
      } else {
        ChangeTracks(Remove(w, s), s, Unconnected(t), live - {s});
      }
    }
  }

  /** After a disciplined operation the stored sockets are the ones in use. */
  lemma ApplyTracks(w: World, op: Op, live: set<nat>)
    requires Tracks(w, live) && Disciplined(w, op)
    ensures Tracks(Apply(w, op), LiveAfter(w, op, live))
  {
    hide KeyOf, Own, Stored, Remove, Tracks, FirstFree, AllSized, Settle, BindStep, ConnectStep;
    TracksOwn(w, live);
    match op {
      case Open(local, scope, pick) => OpenTracks(w, local, scope, pick, live);
      case Connect(s, peer, picks) => ConnectTracks(w, s, peer, picks, live);
      case Close(s) => RemoveTracks(w, s, live);
    }
  }

  lemma ApplySized(w: World, op: Op)
    requires AllSized(w.tups) && Proper(w, op)
    ensures AllSized(Apply(w, op).tups)
  {
    hide KeyOf, Find, Settle, Remove;
    match op {
      case Open(local, scope, pick) =>
      case Connect(s, peer, picks) =>
        RemoveKeepsTuples(w, s);
        SettleSized(Remove(w, s), s, Toward(w.tups[s], peer), [w.tups[s].local.port] + picks);
      case Close(s) =>
        RemoveKeepsTuples(w, s);
    }
  }

  lemma SettleSized(w: World, s: nat, t: Tuple, tries: seq<bv16>)
    requires AllSized(w.tups) && s < |w.tups| && Sized(t) && |tries| == 201
    ensures AllSized(Settle(w, s, t, tries).0.tups)
  {
    hide KeyOf, FirstFree;
  }

  // ---- Runs ----

  /** The table after a run; an operation on a socket that does not exist is no operation. */
  ghost function After(w: World, ops: seq<Op>): (w': World)
    requires AllSized(w.tups)
    ensures AllSized(w'.tups)
  {
    if |ops| == 0 then w
    else
      var last := |ops| - 1;
      var p := After(w, ops[..last]);
      if Proper(p, ops[last]) then ApplySized(p, ops[last]); Apply(p, ops[last]) else p
  }

  /** The sockets in use after a run. */
  ghost function InUse(w: World, ops: seq<Op>, live: set<nat>): set<nat>
    requires AllSized(w.tups)
  {
    if |ops| == 0 then live
    else
      var last := |ops| - 1;
      var p, before := After(w, ops[..last]), InUse(w, ops[..last], live);
      if Proper(p, ops[last]) then LiveAfter(p, ops[last], before) else before
  }

  ghost predicate ProperRun(w: World, ops: seq<Op>)
    requires AllSized(w.tups)
  {
    forall i :: 0 <= i < |ops| ==> Proper(After(w, ops[..i]), ops[i])
  }

  ghost predicate DisciplinedRun(w: World, ops: seq<Op>)
    requires AllSized(w.tups)
  {
    forall i :: 0 <= i < |ops| ==> Disciplined(After(w, ops[..i]), ops[i])
  }

  const START := World([], map[], map[])

  lemma Prefixes(ops: seq<Op>)
    requires |ops| > 0
    ensures forall i :: 0 <= i < |ops| ==> ops[..|ops| - 1][..i] == ops[..i]
  {
  }

  /** After every run whatever, every stored key is still the key of the tuple it lies in and of the socket it leads to:
      no tuple changes while a key in it is stored. */
  lemma {:induction false} RunKeepsKeyed(w: World, ops: seq<Op>)
    requires Keyed(w)
    ensures Keyed(After(w, ops))
  {
    hide Keyed, Apply, AllSized, Proper;
    if |ops| > 0 {
      var last := |ops| - 1;
      RunKeepsKeyed(w, ops[..last]);
      var p := After(w, ops[..last]);
      if Proper(p, ops[last]) {
        ApplyKeepsKeyed(p, ops[last]);
      }
    }
  }

  lemma {:induction false} RunTracks(w: World, ops: seq<Op>, live: set<nat>)
    requires AllSized(w.tups) && Tracks(w, live) && DisciplinedRun(w, ops)
    ensures Tracks(After(w, ops), InUse(w, ops, live))
  {
    hide Tracks, Apply, LiveAfter, AllSized, Disciplined, Proper;
    if |ops| > 0 {
      var last := |ops| - 1;
      Prefixes(ops);
      RunTracks(w, ops[..last], live);
      assert Disciplined(After(w, ops[..last]), ops[last]);
      ApplyTracks(After(w, ops[..last]), ops[last], InUse(w, ops[..last], live));
    }
  }

  lemma StartTracks()
    ensures Tracks(START, {}) && Keyed(START)
  {
  }

  /**
   * After every disciplined run from the empty table: every key lies in the tuple of its own socket and has not
   * changed while stored, and a datagram goes to the socket in use that is connected to its sender, if there is one,
   * otherwise to the one only bound to its destination.
   */
  lemma RunDelivers(ops: seq<Op>, local: SockAddr, from: SockAddr, s: nat)
    requires DisciplinedRun(START, ops) && |local.addr.ip| == |from.addr.ip| == 16
    ensures var w, live := After(START, ops), InUse(START, ops, {});
      && Own(w)
      && (forall x :: x in live ==> x < |w.tups|)
      && (Deliver(w, local, from) == Some(s) <==>
           && s in live
           && (|| TupleCmp(w.tups[s], Query(local, from))
               || (&& TupleCmp(w.tups[s], Query(local, UNSET))
                   && forall x :: x in live ==> !TupleCmp(w.tups[x], Query(local, from)))))
  {
    hide Own, Stored, Deliver, TupleCmp, After, InUse, DisciplinedRun, AllSized;
    StartTracks();
    RunTracks(START, ops, {});
    DeliverIsMatch(After(START, ops), local, from, s);
  }

  // ---- Where the source leaves the discipline ----

  /** A port picked for a bind is not looked up first: when two binds pick the same one, the second takes the entry of
      the first, whose tuple still holds the stored key. */
  lemma PickedTwice(a: Addr, pick: bv16)
    requires |a.ip| == 16 && pick != 0
    ensures var op := Open(SockAddr(a, 0), 0, pick);
      && Proper(START, op) && Disciplined(START, op)
      && var w := Apply(START, op);
      && AllSized(w.tups) && Proper(w, op) && Stored(w, 0) && Own(w)
      && var w' := Apply(w, op);
      && !Own(w') && AllSized(w'.tups) && !Stored(w', 0) && Stored(w', 1)
  {
    var op := Open(SockAddr(a, 0), 0, pick);
    StartTracks();
    ApplyKeepsOwn(START, op);
    var t := Tuple(SockAddr(a, 0), UNSET, 0);
    var w := Apply(START, op);
    var w1 := World([WithPort(t, pick)], map[KeyOf(WithPort(t, pick)) := 0], map[KeyOf(WithPort(t, pick)) := 0]);
    assert w == w1;
    assert KeyOf(t) != KeyOf(WithPort(t, pick));
    ApplyKeepsOwn(w1, op);
  }

  /** A bind to a bound address answers success without storing the socket; closing that socket takes the entry of the
      one that was stored. */
  lemma CloseTakesOther(local: SockAddr, pick: bv16)
    requires |local.addr.ip| == 16 && local.port != 0
    ensures var op := Open(local, 0, pick);
      && Proper(START, op)
      && var w := Apply(START, op);
      && AllSized(w.tups) && Proper(w, op) && Stored(w, 0)
      && var w' := Apply(w, op);
      && AllSized(w'.tups) && Proper(w', Close(1)) && Stored(w', 0) && !Stored(w', 1)
      && !Stored(Apply(w', Close(1)), 0)
  {
    hide KeyOf;
    var t := Tuple(local, UNSET, 0);
    var w := Apply(START, Open(local, 0, pick));
    assert w == World([t], map[KeyOf(t) := 0], map[KeyOf(t) := 0]);
    var w' := Apply(w, Open(local, 0, pick));
    assert w' == World([t, t], map[KeyOf(t) := 0], map[KeyOf(t) := 0]);
  }

  /** The table in which socket i has tuple tups[i] and each key leads to the given socket, in whose tuple it lies. */
  ghost function Sound(tups: seq<Tuple>, table: map<Key, nat>): World { World(tups, table, table) }

  /** A lone socket that is bound and then connected at the first try. */
  lemma ConnectAlone(t: Tuple, peer: SockAddr, picks: seq<bv16>)
    requires Sized(t) && t.remote == UNSET && |peer.addr.ip| == 16 && KnownFamily(peer.addr) && |picks| == 200
    ensures var c := Toward(t, peer);
      ConnectStep(Sound([t], map[KeyOf(t) := 0]), 0, peer, picks) == (Sound([c], map[KeyOf(c) := 0]), Connected)
  {
    hide KeyOf;
    var c, w := Toward(t, peer), Sound([t], map[KeyOf(t) := 0]);
    assert Remove(w, 0) == Sound([t], map[]);
    assert WithPort(c, t.local.port) == c && [t][0 := c] == [c];
  }

  /** A second socket on the address whose picks are all its own port connects over the first one. */
  lemma ConnectOver(t: Tuple, peer: SockAddr, picks: seq<bv16>)
    requires Sized(t) && t.remote == UNSET && |peer.addr.ip| == 16 && KnownFamily(peer.addr)
    requires |picks| == 200 && forall i :: 0 <= i < 200 ==> picks[i] == t.local.port
    requires KeyOf(t) != KeyOf(Toward(t, peer))
    ensures var c := Toward(t, peer); var k := KeyOf(c);
      ConnectStep(Sound([c, t], map[k := 0, KeyOf(t) := 1]), 1, peer, picks)
        == (World([c, c], map[k := 1], map[k := 0]), Connected)
  {
    hide KeyOf, FirstFree;
    var c, tries := Toward(t, peer), [t.local.port] + picks;
    var m := map[KeyOf(c) := 0];
    assert map[KeyOf(c) := 0, KeyOf(t) := 1] - {KeyOf(t)} == m;
    assert Remove(Sound([c, t], map[KeyOf(c) := 0, KeyOf(t) := 1]), 1) == Sound([c, t], m);
    AllTaken(m, c, tries);
    assert [c, t][1 := c] == [c, c] && m[KeyOf(c) := 1] == map[KeyOf(c) := 1];
  }

  lemma AllTaken(table: map<Key, nat>, t: Tuple, tries: seq<bv16>)
    requires Sized(t) && |tries| == 201 && KeyOf(t) in table
    requires forall i :: 0 <= i < 201 ==> tries[i] == t.local.port
    ensures FirstFree(table, t, tries, 0) == 200 && WithPort(t, tries[200]) == t
  {
    hide KeyOf;
    var f := FirstFree(table, t, tries, 0);
    assert WithPort(t, tries[f]) == t;
  }

  lemma PeerTells(t: Tuple, peer: SockAddr)
    requires Sized(t) && t.remote == UNSET && |peer.addr.ip| == 16 && KnownFamily(peer.addr)
    ensures KeyOf(t) != KeyOf(Toward(t, peer))
  {
  }

  lemma AfterNext(w: World, ops: seq<Op>, op: Op)
    requires AllSized(w.tups) && Proper(After(w, ops), op)
    ensures After(w, ops + [op]) == Apply(After(w, ops), op)
  {
    hide Apply, Proper, AllSized;
    assert (ops + [op])[..|ops|] == ops;
  }

  /** One socket bound and connected, another bound to the same address. */
  lemma TwoOnAddress(local: SockAddr, peer: SockAddr, picks: seq<bv16>)
    requires |local.addr.ip| == |peer.addr.ip| == 16 && local.port != 0 && KnownFamily(peer.addr) && |picks| == 200
    ensures var t := Tuple(local, UNSET, 0); var c := Toward(t, peer);
      After(START, [Open(local, 0, 0), Connect(0, peer, picks), Open(local, 0, 0)])
        == Sound([c, t], map[KeyOf(c) := 0, KeyOf(t) := 1])
  {
    hide KeyOf, ConnectStep;
    var t := Tuple(local, UNSET, 0);
    var c := Toward(t, peer);
    PeerTells(t, peer);
    var a, b := Open(local, 0, 0), Connect(0, peer, picks);
    AfterNext(START, [], a);
    assert [] + [a] == [a] && [a] + [b] == [a, b] && [a, b] + [a] == [a, b, a];
    assert After(START, [a]) == Sound([t], map[KeyOf(t) := 0]);
    AfterNext(START, [a], b);
    ConnectAlone(t, peer, picks);
    AfterNext(START, [a, b], a);
    assert BindStep(Sound([c], map[KeyOf(c) := 0]), local, 0, 0) == Sound([c, t], map[KeyOf(c) := 0, KeyOf(t) := 1]);
  }

  /** A connected socket has the four-tuple, and every port that a second socket on its address picks is the same: all
      200 tries are taken, the connect answers success, and it takes the entry of the first socket. */
  lemma TriesExhausted(local: SockAddr, peer: SockAddr)
    requires |local.addr.ip| == |peer.addr.ip| == 16 && local.port != 0 && KnownFamily(peer.addr)
    ensures var picks := seq(200, _ => local.port);
      var w := After(START, [Open(local, 0, 0), Connect(0, peer, picks), Open(local, 0, 0)]);
      && Own(w) && Stored(w, 0) && Stored(w, 1) && Proper(w, Connect(1, peer, picks))
      && var (w', outcome) := ConnectStep(w, 1, peer, picks);
      && outcome == Connected && Keyed(w') && !Own(w') && !Stored(w', 0) && Stored(w', 1)
  {
    hide KeyOf, ConnectStep, After, Keyed;
    var picks, t := seq(200, _ => local.port), Tuple(local, UNSET, 0);
    var c := Toward(t, peer);
    PeerTells(t, peer);
    TwoOnAddress(local, peer, picks);
    ConnectOver(t, peer, picks);
    TakenOver(c);
  }

  lemma TakenOver(c: Tuple)
    requires Sized(c)
    ensures var w := World([c, c], map[KeyOf(c) := 1], map[KeyOf(c) := 0]);
      Keyed(w) && !Own(w) && !Stored(w, 0) && Stored(w, 1)
  {
    hide KeyOf;
    var w := World([c, c], map[KeyOf(c) := 1], map[KeyOf(c) := 0]);
    assert w.table[KeyOf(c)] != w.owner[KeyOf(c)];
  }
}
