/**
 * The socket table of the netmap backend. A socket is an index into `tups`, the memory of the sockets' tuples. The
 * table maps keys to sockets; since the source stores a pointer to a tuple as the key, `owner` says of each stored
 * key in which socket's tuple it lies.
 */
module SockTable {
  import opened Options
  import opened SockTuple

  datatype World = World(tups: seq<Tuple>, table: map<Key, nat>, owner: map<Key, nat>)

  ghost predicate AllSized(tups: seq<Tuple>) {
    forall s :: 0 <= s < |tups| ==> Sized(tups[s])
  }

  /** What every operation keeps without conditions. */
  ghost predicate Shape(w: World) {
    AllSized(w.tups) && w.table.Keys == w.owner.Keys
  }

  /** Every stored key lies in the tuple of the socket it leads to, and that tuple still has this key. */
  ghost predicate Own(w: World): (own: bool)
    ensures own ==> AllSized(w.tups)
  {
    && Shape(w)
    && forall k :: k in w.table ==> w.table[k] == w.owner[k] < |w.tups| && KeyOf(w.tups[w.table[k]]) == k
  }

  /** A lookup of the socket's own tuple leads to it. */
  ghost predicate Stored(w: World, s: nat): (stored: bool)
    requires AllSized(w.tups)
    ensures stored ==> s < |w.tups|
  {
    s < |w.tups| && KeyOf(w.tups[s]) in w.table && w.table[KeyOf(w.tups[s])] == s
  }

  // ---- The operations, as functions ----

  ghost function Insert(w: World, s: nat): World
    requires AllSized(w.tups) && s < |w.tups|
  {
    var k := KeyOf(w.tups[s]);
    World(w.tups, w.table[k := s], if k in w.table then w.owner else w.owner[k := s])
  }

  ghost function Remove(w: World, s: nat): World
    requires AllSized(w.tups) && s < |w.tups|
  {
    var k := KeyOf(w.tups[s]);
    World(w.tups, w.table - {k}, w.owner - {k})
  }

  function Query(local: SockAddr, remote: SockAddr): Tuple { Tuple(local, remote, 0) }

  ghost function Find(w: World, t: Tuple): Option<nat>
    requires Sized(t)
  {
    if KeyOf(t) in w.table then Some(w.table[KeyOf(t)]) else None
  }

  function WithPort(t: Tuple, p: bv16): Tuple { Tuple(SockAddr(t.local.addr, p), t.remote, t.scope) }

  function Unconnected(t: Tuple): Tuple { Tuple(t.local, UNSET, t.scope) }

  ghost function SetTuple(w: World, s: nat, t: Tuple): World
    requires s < |w.tups|
  {
    World(w.tups[s := t], w.table, w.owner)
  }

  ghost function AddTuple(w: World, t: Tuple): World { World(w.tups + [t], w.table, w.owner) }

  /** `backend_bind` on a new socket: nothing when the address is bound; else a port if none was asked for, and
      insertion. */
  ghost function BindStep(w: World, local: SockAddr, scope: nat, pick: bv16): World
    requires AllSized(w.tups) && |local.addr.ip| == 16
  {
    var t := Tuple(local, UNSET, scope);
    if Find(w, t) != None then AddTuple(w, t)
    else Insert(AddTuple(w, if local.port == 0 then WithPort(t, pick) else t), |w.tups|)
  }

  datatype Outcome = Connected | AlreadyConnected | UnknownFamily | NoPort

  /** `w_to_waddr`: an IPv4 address overwrites only its four bytes of the union. */
  function ToAddr(was: Addr, peer: Addr): Addr
    requires |was.ip| == |peer.ip| == 16
  {
    Addr(peer.af, if peer.af == AF_INET then peer.ip[..4] + was.ip[4..] else peer.ip)
  }

  function Toward(t: Tuple, peer: SockAddr): Tuple
    requires Sized(t) && |peer.addr.ip| == 16
  {
    Tuple(t.local, SockAddr(ToAddr(t.remote.addr, peer.addr), peer.port), t.scope)
  }

  /** The first try that finds a free four-tuple, or 200. */
  ghost function FirstFree(table: map<Key, nat>, t: Tuple, tries: seq<bv16>, j: nat): (f: nat)
    requires Sized(t) && |tries| == 201 && j <= 200
    ensures j <= f <= 200
    ensures f < 200 ==> KeyOf(WithPort(t, tries[f])) !in table
    ensures forall i :: j <= i < f ==> KeyOf(WithPort(t, tries[i])) in table
    decreases 200 - j
  {
    if j == 200 || KeyOf(WithPort(t, tries[j])) !in table then j else FirstFree(table, t, tries, j + 1)
  }

  /**
   * `backend_connect` on a socket whose tuple already names the peer. The countdown from 200 is one byte and is tested
   * before it is decremented: a free tuple at the last try leaves it 0 and is refused, and when no try is free it wraps
   * to 255 and the last port is inserted untried. On refusal `w_connect` erases the peer.
   */
  ghost function Settle(w: World, s: nat, t: Tuple, tries: seq<bv16>): (World, Outcome)
    requires AllSized(w.tups) && s < |w.tups| && Sized(t) && |tries| == 201
  {
    var f := FirstFree(w.table, t, tries, 0);
    if f == 199 then (SetTuple(w, s, Unconnected(WithPort(t, tries[f]))), NoPort)
    else (Insert(SetTuple(w, s, WithPort(t, tries[f])), s), Connected)
  }

  /** A connect is refused exactly when the last of the 200 tries is the first free one; when all are taken it succeeds
      with a port that was never tried, whether that one is free or not. */
  lemma SettleOutcome(w: World, s: nat, t: Tuple, tries: seq<bv16>)
    requires AllSized(w.tups) && s < |w.tups| && Sized(t) && |tries| == 201
    ensures var (w', outcome) := Settle(w, s, t, tries);
      && (outcome == NoPort <==>
           && (forall i :: 0 <= i < 199 ==> KeyOf(WithPort(t, tries[i])) in w.table)
           && KeyOf(WithPort(t, tries[199])) !in w.table)
      && (outcome != NoPort ==> outcome == Connected)
      && ((forall i :: 0 <= i < 200 ==> KeyOf(WithPort(t, tries[i])) in w.table) ==>
           outcome == Connected && w'.tups[s] == WithPort(t, tries[200]))
  {
    hide KeyOf, Insert;
    var f := FirstFree(w.table, t, tries, 0);
    if forall i :: 0 <= i < 199 ==> KeyOf(WithPort(t, tries[i])) in w.table {
      assert f >= 199;
    }
    InsertKeepsTuples(SetTuple(w, s, WithPort(t, tries[f])), s);
  }

  lemma InsertKeepsTuples(w: World, s: nat)
    requires AllSized(w.tups) && s < |w.tups|
    ensures Insert(w, s).tups == w.tups
  {
  }

  predicate KnownFamily(a: Addr) { a.af == AF_INET || a.af == AF_INET6 }

  /** `w_connect`. The socket leaves the table before its tuple changes. */
  ghost function ConnectStep(w: World, s: nat, peer: SockAddr, picks: seq<bv16>): (World, Outcome)
    requires AllSized(w.tups) && s < |w.tups| && |peer.addr.ip| == 16 && |picks| == 200
  {
    var t := w.tups[s];
    if t.remote.port != 0 then (w, AlreadyConnected)
    else if !KnownFamily(peer.addr) then (SetTuple(Remove(w, s), s, Unconnected(t)), UnknownFamily)
    else Settle(Remove(w, s), s, Toward(t, peer), [t.local.port] + picks)
  }

  /** The two lookups of `udp_rx`. */
  ghost function Deliver(w: World, local: SockAddr, from: SockAddr): Option<nat>
    requires |local.addr.ip| == |from.addr.ip| == 16
  {
    var exact := Find(w, Query(local, from));
    if exact != None then exact else Find(w, Query(local, UNSET))
  }

  // ---- Lookups, against the sockets themselves ----

  /** A lookup finds the socket, if any, whose own tuple compares equal; there is at most one. */
  lemma FindIsMatch(w: World, q: Tuple, s: nat)
    requires Own(w) && Sized(q)
    ensures Find(w, q) == Some(s) <==> Stored(w, s) && TupleCmp(w.tups[s], q)
  {
    hide KeyOf, TupleCmp;
    if s < |w.tups| { CmpIsKeyEquality(w.tups[s], q); }
  }

  lemma FindNoneIsNoMatch(w: World, q: Tuple)
    requires Own(w) && Sized(q)
    ensures Find(w, q) == None <==> forall s: nat :: Stored(w, s) ==> !TupleCmp(w.tups[s], q)
  {
    hide Own, Stored, Find, TupleCmp;
    match Find(w, q) {
      case None =>
        forall s: nat | Stored(w, s)
          ensures !TupleCmp(w.tups[s], q)
        {
          FindIsMatch(w, q, s);
        }
      case Some(s) =>
        FindIsMatch(w, q, s);
    }
  }

  /** A datagram goes to the socket connected to its sender if there is one, otherwise to the socket only bound to its
      destination, and to nobody otherwise. */
  lemma DeliverIsMatch(w: World, local: SockAddr, from: SockAddr, s: nat)
    requires Own(w) && |local.addr.ip| == |from.addr.ip| == 16
    ensures Deliver(w, local, from) == Some(s) <==>
              && Stored(w, s)
              && (|| TupleCmp(w.tups[s], Query(local, from))
                  || (&& TupleCmp(w.tups[s], Query(local, UNSET))
                      && forall x: nat :: Stored(w, x) ==> !TupleCmp(w.tups[x], Query(local, from))))
    ensures Deliver(w, local, from) == None <==>
              forall x: nat :: Stored(w, x) ==>
                !TupleCmp(w.tups[x], Query(local, from)) && !TupleCmp(w.tups[x], Query(local, UNSET))
  {
    hide Own, Stored, Find, TupleCmp;
    var exact, bound := Query(local, from), Query(local, UNSET);
    FindIsMatch(w, exact, s);
    FindIsMatch(w, bound, s);
    FindNoneIsNoMatch(w, exact);
    FindNoneIsNoMatch(w, bound);
  }

  // ---- When the table stays sound ----

  lemma InsertKeepsOwn(w: World, s: nat)
    requires Own(w) && s < |w.tups|
    ensures Own(Insert(w, s)) <==> KeyOf(w.tups[s]) !in w.table || Stored(w, s)
    ensures Stored(Insert(w, s), s)
  {
    hide KeyOf;
    var w', k := Insert(w, s), KeyOf(w.tups[s]);
    if k in w.table && w.table[k] != s {
      assert w'.table[k] != w'.owner[k];
    } else {
      forall k' | k' in w'.table
        ensures w'.table[k'] == w'.owner[k'] < |w.tups| && KeyOf(w.tups[w'.table[k']]) == k'
      {
        if k' != k { assert k' in w.table; }
      }
    }
  }

  lemma RemoveKeepsOwn(w: World, s: nat)
    requires Own(w) && s < |w.tups|
    ensures Own(Remove(w, s)) && KeyOf(w.tups[s]) !in Remove(w, s).table
  {
    var w' := Remove(w, s);
    forall k | k in w'.table
      ensures w'.table[k] == w'.owner[k] < |w.tups| && KeyOf(w.tups[w'.table[k]]) == k
    {
      assert k in w.table;
    }
  }

  /** A tuple may change while no stored key lies in it. */
  lemma ChangeKeepsOwn(w: World, s: nat, t: Tuple)
    requires Own(w) && s < |w.tups| && !Stored(w, s) && Sized(t)
    ensures Own(SetTuple(w, s, t))
  {
    var w' := SetTuple(w, s, t);
    forall k | k in w'.table
      ensures w'.table[k] == w'.owner[k] < |w'.tups| && KeyOf(w'.tups[w'.table[k]]) == k
    {
      assert w.table[k] != s;
    }
  }

  lemma AppendKeepsOwn(w: World, t: Tuple)
    requires Own(w) && Sized(t)
    ensures Own(AddTuple(w, t))
  {
    var w' := AddTuple(w, t);
    forall k | k in w'.table
      ensures w'.table[k] == w'.owner[k] < |w'.tups| && KeyOf(w'.tups[w'.table[k]]) == k
    {
      assert w'.tups[w.table[k]] == w.tups[w.table[k]];
    }
  }

  // ---- What every run keeps ----

  /** Every stored key is still the key of the tuple it lies in and of the socket it leads to. */
  ghost predicate Keyed(w: World): (keyed: bool)
    ensures keyed ==> AllSized(w.tups)
  {
    && Shape(w)
    && forall k :: k in w.table ==>
         && w.table[k] < |w.tups| && KeyOf(w.tups[w.table[k]]) == k
         && w.owner[k] < |w.tups| && KeyOf(w.tups[w.owner[k]]) == k
  }

  lemma InsertKeepsKeyed(w: World, s: nat)
    requires Keyed(w) && s < |w.tups|
    ensures Keyed(Insert(w, s))
  {
    hide KeyOf;
  }

  lemma RemoveKeepsKeyed(w: World, s: nat)
    requires Keyed(w) && s < |w.tups|
    ensures Keyed(Remove(w, s)) && Gone(Remove(w, s), s)
  {
    hide KeyOf;
    var w' := Remove(w, s);
    assert w'.table.Keys == w'.owner.Keys;
  }

  /** No stored key lies in the socket's tuple or leads to the socket. */
  ghost predicate Gone(w: World, s: nat)
    requires w.table.Keys == w.owner.Keys
  {
    forall k :: k in w.table ==> w.table[k] != s && w.owner[k] != s
  }

  lemma ChangeKeepsKeyed(w: World, s: nat, t: Tuple)
    requires Keyed(w) && s < |w.tups| && Gone(w, s) && Sized(t)
    ensures Keyed(SetTuple(w, s, t))
  {
    hide KeyOf;
  }

  lemma AppendKeepsKeyed(w: World, t: Tuple)
    requires Keyed(w) && Sized(t)
    ensures Keyed(AddTuple(w, t))
  {
    hide KeyOf;
  }

  lemma SettleKeepsKeyed(w: World, s: nat, t: Tuple, tries: seq<bv16>)
    requires Keyed(w) && s < |w.tups| && Gone(w, s) && Sized(t) && |tries| == 201
    ensures Keyed(Settle(w, s, t, tries).0)
  {
    hide KeyOf, Keyed, Gone, Insert, FirstFree, AllSized;
    var t' := WithPort(t, tries[FirstFree(w.table, t, tries, 0)]);
    ChangeKeepsKeyed(w, s, t');
    ChangeKeepsKeyed(w, s, Unconnected(t'));
    InsertKeepsKeyed(SetTuple(w, s, t'), s);
  }

  /** Every operation, whatever ports it picks, keeps the stored keys right. */
  lemma ApplyKeepsKeyed(w: World, op: Op)
    requires Keyed(w) && Proper(w, op)
    ensures Keyed(Apply(w, op))
  {
    hide KeyOf, Keyed, Gone, Insert, Remove, Settle, Find;
    match op {
      case Open(local, scope, pick) =>
        var t := Tuple(local, UNSET, scope);
        var t' := if local.port == 0 then WithPort(t, pick) else t;
        AppendKeepsKeyed(w, t);
        AppendKeepsKeyed(w, t');
        InsertKeepsKeyed(AddTuple(w, t'), |w.tups|);
      case Connect(s, peer, picks) =>
        RemoveKeepsKeyed(w, s);
        RemoveKeepsTuples(w, s);
        var t := w.tups[s];
        SettleKeepsKeyed(Remove(w, s), s, Toward(t, peer), [t.local.port] + picks);
        ChangeKeepsKeyed(Remove(w, s), s, Unconnected(t));
      case Close(s) =>
        RemoveKeepsKeyed(w, s);
    }
  }

  // ---- Who is stored ----

  /** The sockets that `live` names are stored, and no others. */
  ghost predicate Tracks(w: World, live: set<nat>) {
    Own(w) && forall s: nat :: s in live <==> Stored(w, s)
  }

  lemma InsertTracks(w: World, s: nat, live: set<nat>)
    requires Tracks(w, live) && s < |w.tups| && KeyOf(w.tups[s]) !in w.table
    ensures Tracks(Insert(w, s), live + {s})
  {
    InsertKeepsOwn(w, s);
  }

  lemma RemoveTracks(w: World, s: nat, live: set<nat>)
    requires Tracks(w, live) && Stored(w, s)
    ensures Tracks(Remove(w, s), live - {s})
  {
    RemoveKeepsOwn(w, s);
  }

  lemma ChangeTracks(w: World, s: nat, t: Tuple, live: set<nat>)
    requires Tracks(w, live) && s < |w.tups| && s !in live && Sized(t)
    ensures Tracks(SetTuple(w, s, t), live)
  {
    ChangeKeepsOwn(w, s, t);
  }

  lemma AppendTracks(w: World, t: Tuple, live: set<nat>)
    requires Tracks(w, live) && Sized(t)
    ensures Tracks(AddTuple(w, t), live)
  {
    AppendKeepsOwn(w, t);
  }

  // ---- Runs ----

  datatype Op =
    | Open(local: SockAddr, scope: nat, pick: bv16)
    | Connect(s: nat, peer: SockAddr, picks: seq<bv16>)
    | Close(s: nat)

  /** The operation is on a socket that exists and its data have the sizes of the source's types. */
  ghost predicate Proper(w: World, op: Op) {
    match op
    case Open(local, _, _) => |local.addr.ip| == 16
    case Connect(s, peer, picks) => s < |w.tups| && |peer.addr.ip| == 16 && |picks| == 200
    case Close(s) => s < |w.tups|
  }

  ghost function Apply(w: World, op: Op): World
    requires AllSized(w.tups) && Proper(w, op)
  {
    match op
    case Open(local, scope, pick) => BindStep(w, local, scope, pick)
    case Connect(s, peer, picks) => ConnectStep(w, s, peer, picks).0
    case Close(s) => Remove(w, s)
  }

  // ---- What every lookup finds after an operation ----

  /** After a close, lookups of the socket's own tuple find nobody, and all others find whom they found. */
  lemma CloseFinds(w: World, s: nat, q: Tuple)
    requires AllSized(w.tups) && s < |w.tups| && Sized(q)
    ensures Find(Apply(w, Close(s)), q) == if TupleCmp(q, w.tups[s]) then None else Find(w, q)
  {
    hide KeyOf, TupleCmp;
    CmpIsKeyEquality(q, w.tups[s]);
  }

  lemma InsertFinds(w: World, s: nat, q: Tuple)
    requires AllSized(w.tups) && s < |w.tups| && Sized(q)
    ensures Find(Insert(w, s), q) == if TupleCmp(q, w.tups[s]) then Some(s) else Find(w, q)
  {
    hide KeyOf, TupleCmp;
    CmpIsKeyEquality(q, w.tups[s]);
  }

  /** After a bind to an address that was not bound, lookups of that address without a remote, at the port asked for or
      else the one picked, find the new socket; all others, and all after a bind to a bound address, find whom they
      found. */
  lemma BindFinds(w: World, local: SockAddr, scope: nat, pick: bv16, q: Tuple)
    requires AllSized(w.tups) && |local.addr.ip| == 16 && Sized(q)
    ensures var w', port := Apply(w, Open(local, scope, pick)), if local.port == 0 then pick else local.port;
      && |w'.tups| == |w.tups| + 1 && w'.tups[..|w.tups|] == w.tups
      && var t := w'.tups[|w.tups|];
      && t.local.addr == local.addr && t.remote == UNSET && t.scope == scope
      && t.local.port == (if Find(w, Query(local, UNSET)) == None then port else local.port)
      && Find(w', q) ==
         if Find(w, Query(local, UNSET)) == None && TupleCmp(q, Query(SockAddr(local.addr, port), UNSET))
         then Some(|w.tups|) else Find(w, q)
  {
    hide KeyOf, TupleCmp, Insert;
    var t, port := Tuple(local, UNSET, scope), if local.port == 0 then pick else local.port;
    var t' := if local.port == 0 then WithPort(t, pick) else t;
    SameKey(t, Query(local, UNSET));
    SameKey(t', Query(SockAddr(local.addr, port), UNSET));
    CmpIsKeyEquality(q, t');
    CmpIsKeyEquality(q, Query(SockAddr(local.addr, port), UNSET));
    InsertFinds(AddTuple(w, t'), |w.tups|, q);
    InsertKeepsTuples(AddTuple(w, t'), |w.tups|);
  }

  lemma SameKey(a: Tuple, b: Tuple)
    requires Sized(a) && a.local == b.local && a.remote == b.remote
    ensures KeyOf(a) == KeyOf(b)
  {
  }

  /** What a connect makes of the socket's tuple. */
  lemma ConnectTuple(w: World, s: nat, peer: SockAddr, picks: seq<bv16>)
    requires AllSized(w.tups) && s < |w.tups| && |peer.addr.ip| == 16 && |picks| == 200
    ensures var (w', outcome) := ConnectStep(w, s, peer, picks);
      && |w'.tups| == |w.tups| && (forall x :: 0 <= x < |w.tups| && x != s ==> w'.tups[x] == w.tups[x])
      && (outcome == AlreadyConnected <==> w.tups[s].remote.port != 0)
      && (outcome == AlreadyConnected ==> w' == w)
      && (outcome != AlreadyConnected ==>
           var t := w'.tups[s];
           && Sized(t) && t.local.addr == w.tups[s].local.addr && t.scope == w.tups[s].scope
           && (t.local.port == w.tups[s].local.port || t.local.port in picks)
           && (outcome == Connected ==>
                && t.remote.port == peer.port && t.remote.addr.af == peer.addr.af
                && forall i :: 0 <= i < (if peer.addr.af == 2 then 4 else 16) ==>
                     t.remote.addr.ip[i] == peer.addr.ip[i])
           && (outcome != Connected ==>
                t.remote.port == 0 && t.remote.addr.af == 0 && forall i :: 0 <= i < 16 ==> t.remote.addr.ip[i] == 0))
      && (outcome == UnknownFamily <==> w.tups[s].remote.port == 0 && peer.addr.af != 2 && peer.addr.af != 10)
  {
    hide KeyOf, Insert, Remove, FirstFree;
    var t := w.tups[s];
    RemoveKeepsTuples(w, s);
    var tries := [t.local.port] + picks;
    var f := FirstFree(Remove(w, s).table, Toward(t, peer), tries, 0);
    assert tries[f] == t.local.port || tries[f] in picks;
    InsertKeepsTuples(SetTuple(Remove(w, s), s, WithPort(Toward(t, peer), tries[f])), s);
  }

  /** After a successful connect, lookups from the peer find the socket; those of its former tuple find nobody
      unless they are the same; all others find whom they found. After a refused one the socket is found by nobody.
      */
  lemma ConnectFinds(w: World, s: nat, peer: SockAddr, picks: seq<bv16>, q: Tuple)
    requires AllSized(w.tups) && s < |w.tups| && |peer.addr.ip| == 16 && |picks| == 200 && Sized(q)
    requires w.tups[s].remote.port == 0
    ensures var (w', outcome) := ConnectStep(w, s, peer, picks);
      && |w'.tups| == |w.tups| && Sized(w'.tups[s])
      && Find(w', q) ==
         if outcome == Connected && TupleCmp(q, Query(w'.tups[s].local, peer)) then Some(s)
         else if TupleCmp(q, w.tups[s]) then None else Find(w, q)
  {
    hide KeyOf, TupleCmp, Insert, Remove, FirstFree, Find;
    ConnectTuple(w, s, peer, picks);
    CloseFinds(w, s, q);
    var t, w1 := w.tups[s], Remove(w, s);
    RemoveKeepsTuples(w, s);
    SetFinds(w1, s, Unconnected(t), q);
    if KnownFamily(peer.addr) {
      var c, tries := Toward(t, peer), [t.local.port] + picks;
      var p := tries[FirstFree(w1.table, c, tries, 0)];
      SetFinds(w1, s, Unconnected(WithPort(c, p)), q);
      SetFinds(w1, s, WithPort(c, p), q);
      var w2 := SetTuple(w1, s, WithPort(c, p));
      InsertFinds(w2, s, q);
      InsertKeepsTuples(w2, s);
      PeerKey(c, t, peer, p);
      CmpIsKeyEquality(q, WithPort(c, p));
      CmpIsKeyEquality(q, Query(SockAddr(t.local.addr, p), peer));
    }
  }

  lemma SetFinds(w: World, s: nat, t: Tuple, q: Tuple)
    requires AllSized(w.tups) && s < |w.tups| && Sized(t) && Sized(q)
    ensures AllSized(SetTuple(w, s, t).tups) && Find(SetTuple(w, s, t), q) == Find(w, q)
  {
    hide KeyOf;
  }

  lemma PeerKey(c: Tuple, t: Tuple, peer: SockAddr, p: bv16)
    requires Sized(t) && |peer.addr.ip| == 16 && c == Toward(t, peer)
    ensures Sized(WithPort(c, p)) && KeyOf(WithPort(c, p)) == KeyOf(Query(SockAddr(t.local.addr, p), peer))
  {
    assert (peer.addr.ip[..4] + t.remote.addr.ip[4..])[..4] == peer.addr.ip[..4];
  }

  /** The port the operation ends with is free: the one thing the source leaves to chance. */
  ghost predicate FreePort(w: World, op: Op)
    requires AllSized(w.tups) && Proper(w, op)
  {
    match op
    case Open(local, scope, pick) =>
      local.port != 0 || Find(w, Tuple(local, UNSET, scope)) != None
      || KeyOf(WithPort(Tuple(local, UNSET, scope), pick)) !in w.table
    case Connect(s, peer, picks) =>
      var t := w.tups[s];
      t.remote.port != 0 || !KnownFamily(peer.addr) || Reaches(Remove(w, s), Toward(t, peer), [t.local.port] + picks)
    case Close(s) => true
  }

  /** Some try, or else the port picked after the last one, gives a free four-tuple. */
  ghost predicate Reaches(w: World, t: Tuple, tries: seq<bv16>)
    requires Sized(t) && |tries| == 201
  {
    FirstFree(w.table, t, tries, 0) < 200 || KeyOf(WithPort(t, tries[200])) !in w.table
  }

  lemma SettleKeepsOwn(w: World, s: nat, t: Tuple, tries: seq<bv16>)
    requires Own(w) && s < |w.tups| && KeyOf(w.tups[s]) !in w.table && Sized(t) && |tries| == 201
    ensures Own(Settle(w, s, t, tries).0) <==> Reaches(w, t, tries)
  {
    hide KeyOf, Own, AllSized, FirstFree, Insert;
    var f := FirstFree(w.table, t, tries, 0);
    var t' := WithPort(t, tries[f]);
    if f == 199 {
      ChangeKeepsOwn(w, s, Unconnected(t'));
    } else {
      ChangedInsertKeepsOwn(w, s, t');
    }
  }

  lemma ChangedInsertKeepsOwn(w: World, s: nat, t: Tuple)
    requires Own(w) && s < |w.tups| && !Stored(w, s) && Sized(t)
    ensures AllSized(SetTuple(w, s, t).tups)
    ensures Own(Insert(SetTuple(w, s, t), s)) <==> KeyOf(t) !in w.table
  {
    hide KeyOf, Own, AllSized, Stored, Insert;
    ChangeKeepsOwn(w, s, t);
    NotStoredAfterChange(w, s, t);
    InsertKeepsOwn(SetTuple(w, s, t), s);
  }

  lemma NotStoredAfterChange(w: World, s: nat, t: Tuple)
    requires Own(w) && s < |w.tups| && !Stored(w, s) && Sized(t)
    ensures AllSized(SetTuple(w, s, t).tups) && !Stored(SetTuple(w, s, t), s)
  {
  }

  lemma BindKeepsOwn(w: World, local: SockAddr, scope: nat, pick: bv16)
    requires Own(w) && |local.addr.ip| == 16
    ensures Own(BindStep(w, local, scope, pick)) <==> FreePort(w, Open(local, scope, pick))
  {
    hide KeyOf, Own;
    var t := Tuple(local, UNSET, scope);
    var t' := if local.port == 0 then WithPort(t, pick) else t;
    AppendKeepsOwn(w, t);
    AppendKeepsOwn(w, t');
    if Find(w, t) == None {
      NotStoredAfterAppend(w, t');
      InsertKeepsOwn(AddTuple(w, t'), |w.tups|);
    }
  }

  lemma NotStoredAfterAppend(w: World, t: Tuple)
    requires Own(w) && Sized(t)
    ensures AllSized(AddTuple(w, t).tups) && !Stored(AddTuple(w, t), |w.tups|)
  {
  }

  /** An operation keeps the table sound exactly when the port it ends with is free. */
  lemma ApplyKeepsOwn(w: World, op: Op)
    requires Own(w) && Proper(w, op)
    ensures Own(Apply(w, op)) <==> FreePort(w, op)
  {
    hide KeyOf, Own, Remove, Settle, Reaches, BindStep;
    match op {
      case Open(local, scope, pick) =>
        BindKeepsOwn(w, local, scope, pick);
      case Connect(s, peer, picks) =>
        RemoveKeepsOwn(w, s);
        var t := w.tups[s];
        if t.remote.port == 0 {
          RemoveKeepsTuples(w, s);
          if KnownFamily(peer.addr) {
            SettleKeepsOwn(Remove(w, s), s, Toward(t, peer), [t.local.port] + picks);
          } else {
            ChangeKeepsOwn(Remove(w, s), s, Unconnected(t));
          }
        }
      case Close(s) =>
        RemoveKeepsOwn(w, s);
    }
  }

  lemma RemoveKeepsTuples(w: World, s: nat)
    requires AllSized(w.tups) && s < |w.tups|
    ensures Remove(w, s).tups == w.tups && KeyOf(w.tups[s]) !in Remove(w, s).table
  {
  }
}
