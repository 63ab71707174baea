/** The singly-linked tail queue of queue.h: a head with the address of the last next field and a cached length. */
module TailQueue {

  /** An element; the pool needs the payload window of a w_iov, everything else is left to users of the queue. */
  class Elem {
    var next: Elem?
    var off: nat
    var len: nat

    constructor ()
      ensures next == null
    {
      next, off, len := null, 0, 0;
    }
  }

  /** The address of a link: the first field of a head, or the next field of an element. */
  datatype Link = FirstOf(q: Queue) | NextOf(e: Elem)

  ghost predicate Unique(s: seq<Elem>) {
    forall i, j :: 0 <= i < j < |s| ==> s[i] != s[j]
  }

  ghost predicate Apart(a: seq<Elem>, b: seq<Elem>) {
    forall i, j :: 0 <= i < |a| && 0 <= j < |b| ==> a[i] != b[j]
  }

  /** The element that follows position i, if any. */
  ghost function Succ(s: seq<Elem>, i: int): Elem? {
    if 0 <= i + 1 < |s| then s[i + 1] else null
  }

  class Queue {
    var first: Elem?
    var last: Link
    var len: nat
    ghost var elems: seq<Elem>

    /** The head stands for the sequence elems: the links run through it, `last` is the address of the final link,
        and the cached length is right. */
    ghost predicate Valid()
      reads this, elems
    {
      && Unique(elems)
      && first == (if |elems| == 0 then null else elems[0])
      && (forall i {:trigger elems[i].next} :: 0 <= i < |elems| ==> elems[i].next == Succ(elems, i))
      && last == (if |elems| == 0 then FirstOf(this) else NextOf(elems[|elems| - 1]))
      && len == |elems|
    }

    /** `sq_init`. */
    constructor ()
      ensures Valid() && elems == []
    {
      first, len, elems := null, 0, [];
      last := FirstOf(this);
    }

    method Init()
      modifies this
      ensures Valid() && elems == []
    {
      first := null;
      last := FirstOf(this);
      len, elems := 0, [];
    }

    /** The element at position i, found by following the links. */
    method At(i: nat) returns (e: Elem)
      requires Valid() && i < |elems|
      ensures e == elems[i]
    {
      e := first;
      for k := 0 to i
        invariant e == elems[k]
      {
        e := e.next;
      }
    }

    /** `sq_insert_head`. */
    method InsertHead(e: Elem)
      requires Valid() && e !in elems
      modifies this, e`next
      ensures Valid() && elems == [e] + old(elems)
    {
      e.next := first;
      if e.next == null {
        last := NextOf(e);
      }
      first := e;
      len := len + 1;
      elems := [e] + elems;
    }

    /** `sq_insert_tail`: the store goes through the address kept in `last`. */
    method InsertTail(e: Elem)
      requires Valid() && e !in elems
      modifies this, e`next, elems`next
      ensures Valid() && elems == old(elems) + [e]
    {
      e.next := null;
      match last {
        case FirstOf(q) => q.first := e;
        case NextOf(n) => n.next := e;
      }
      last := NextOf(e);
      len := len + 1;
      elems := elems + [e];
    }

    /** `sq_insert_after`, after the element at position i. */
    method InsertAfter(t: Elem, e: Elem, ghost i: nat)
      requires Valid() && i < |elems| && elems[i] == t && e !in elems
      modifies this, e`next, t`next
      ensures Valid() && elems == old(elems)[..i + 1] + [e] + old(elems)[i + 1..]
    {
      e.next := t.next;
      if e.next == null {
        last := NextOf(e);
      }
      t.next := e;
      len := len + 1;
      elems := elems[..i + 1] + [e] + elems[i + 1..];
    }

    /** `sq_remove_head`. */
    method RemoveHead()
      requires Valid() && elems != []
      modifies this
      ensures Valid() && elems == old(elems)[1..]
    {
      first := first.next;
      if first == null {
        last := FirstOf(this);
      }
      len := len - 1;
      elems := elems[1..];
    }

    /** `sq_remove_after`, for the element at position i. */
    method RemoveAfter(t: Elem, ghost i: nat)
      requires Valid() && i + 1 < |elems| && elems[i] == t
      modifies this, t`next
      ensures Valid() && elems == old(elems)[..i + 1] + old(elems)[i + 2..]
    {
      t.next := t.next.next;
      if t.next == null {
        last := NextOf(t);
      }
      len := len - 1;
      elems := elems[..i + 1] + elems[i + 2..];
    }

    /** `sq_remove`: walk to the predecessor and unlink. */
    method Remove(e: Elem, ghost k: nat)
      requires Valid() && k < |elems| && elems[k] == e
      modifies this, elems`next
      ensures Valid() && elems == old(elems)[..k] + old(elems)[k + 1..]
    {
      if first == e {
        RemoveHead();
      } else {
        var cur := first;
        ghost var i := 0;
        while cur.next != e
          invariant 0 <= i < k && cur == elems[i]
          decreases k - i
        {
          cur := cur.next;
          i := i + 1;
        }
        RemoveAfter(cur, i);
      }
    }

    /** `sq_concat`. Of two different queues it appends the second to the first; of a queue with itself it drops
        everything. */
    method Concat(q: Queue)
      requires Valid() && q.Valid()
      requires q != this ==> Apart(elems, q.elems)
      modifies this, q, elems`next
      ensures Valid() && q.Valid() && q.elems == []
      ensures elems == if q == this then [] else old(elems) + old(q.elems)
    {
      if q.first != null {
        match last {
          case FirstOf(h) => h.first := q.first;
          case NextOf(n) => n.next := q.first;
        }
        last := q.last;
        len := len + q.len;
        elems := elems + q.elems;
        assert q != this ==> forall i {:trigger elems[i].next} :: 0 <= i < |elems| ==> elems[i].next == Succ(elems, i);
        q.Init();
      }
    }

    /** `sq_swap`: exchange the heads, then repair the address of an empty one. */
    method Swap(q: Queue)
      requires Valid() && q.Valid()
      modifies this, q
      ensures Valid() && q.Valid() && elems == old(q.elems) && q.elems == old(elems)
    {
      var f, l, n := first, last, len;
      ghost var es := elems;
      first, last, len, elems := q.first, q.last, q.len, q.elems;
      q.first, q.last, q.len, q.elems := f, l, n, es;
      if first == null {
        last := FirstOf(this);
      }
      if q.first == null {
        q.last := FirstOf(q);
      }
    }
  }

  // ----- any number of queues

  /** All queues are well formed, different, and share no element. */
  ghost predicate World(qs: seq<Queue>)
    reads qs, Members(qs)
  {
    && (forall i :: 0 <= i < |qs| ==> qs[i].Valid())
    && (forall i, j :: 0 <= i < j < |qs| ==> qs[i] != qs[j])
    && (forall i, j :: 0 <= i < |qs| && 0 <= j < |qs| && i != j ==> Apart(qs[i].elems, qs[j].elems))
  }

  ghost function Members(qs: seq<Queue>): (m: set<Elem>)
    reads qs
    ensures forall i, e :: 0 <= i < |qs| && e in qs[i].elems ==> e in m
  {
    set i, e | 0 <= i < |qs| && e in qs[i].elems :: e
  }

  ghost function Contents(qs: seq<Queue>): seq<seq<Elem>>
    reads qs
  {
    seq(|qs|, i requires 0 <= i < |qs| reads qs => qs[i].elems)
  }

  datatype Op =
    | InsHead(q: nat, e: Elem)
    | InsTail(q: nat, e: Elem)
    | InsAfter(q: nat, i: nat, e: Elem)
    | Rem(q: nat, i: nat)
    | Cat(q: nat, r: nat)
    | Swp(q: nat, r: nat)
    | Ini(q: nat)

  /** What the operations do to sequences. */
  ghost function Effect(s: seq<seq<Elem>>, op: Op): seq<seq<Elem>>
    requires Fits(s, op)
  {
    match op
    case InsHead(q, e) => s[q := [e] + s[q]]
    case InsTail(q, e) => s[q := s[q] + [e]]
    case InsAfter(q, i, e) => s[q := s[q][..i + 1] + [e] + s[q][i + 1..]]
    case Rem(q, i) => s[q := s[q][..i] + s[q][i + 1..]]
    case Cat(q, r) => if q == r then s[q := []] else s[q := s[q] + s[r]][r := []]
    case Swp(q, r) => s[q := s[r]][r := s[q]]
    case Ini(q) => s[q := []]
  }

  /** Queue and position exist, and an inserted element is in no queue. */
  ghost predicate Fits(s: seq<seq<Elem>>, op: Op) {
    && op.q < |s|
    && (op.InsHead? || op.InsTail? || op.InsAfter? ==> forall k :: 0 <= k < |s| ==> op.e !in s[k])
    && (op.InsAfter? || op.Rem? ==> op.i < |s[op.q]|)
    && (op.Cat? || op.Swp? ==> op.r < |s|)
  }

  /** A queue that no step touched is as well formed as before. */
  twostate lemma Untouched(q: Queue)
    requires old(q.Valid()) && unchanged(q) && forall e :: e in old(q.elems) ==> e.next == old(e.next)
    ensures q.Valid() && q.elems == old(q.elems)
  {
  }

  /** Inserting one element at the front of one of many queues. */
  method InsHeadOne(qs: seq<Queue>, q: nat, e: Elem)
    requires World(qs) && Fits(Contents(qs), InsHead(q, e))
    modifies qs[q], e`next
    ensures World(qs) && Contents(qs) == Effect(old(Contents(qs)), InsHead(q, e))
  {
    hide Queue.Valid;
    assert Contents(qs)[q] == qs[q].elems;
    qs[q].InsertHead(e);
    forall k | 0 <= k < |qs| && k != q
      ensures qs[k].Valid() && qs[k].elems == old(qs[k].elems) && Apart(qs[k].elems, qs[q].elems)
    {
      assert old(Contents(qs))[k] == old(qs[k].elems);
      Untouched(qs[k]);
    }
  }

  /** At the end of one of many queues. */
  method InsTailOne(qs: seq<Queue>, q: nat, e: Elem)
    requires World(qs) && Fits(Contents(qs), InsTail(q, e))
    modifies qs[q], e`next, Members(qs)`next
    ensures World(qs) && Contents(qs) == Effect(old(Contents(qs)), InsTail(q, e))
  {
    hide Queue.Valid;
    assert Contents(qs)[q] == qs[q].elems;
    qs[q].InsertTail(e);
    forall k | 0 <= k < |qs| && k != q
      ensures qs[k].Valid() && qs[k].elems == old(qs[k].elems) && Apart(qs[k].elems, qs[q].elems)
    {
      assert old(Contents(qs))[k] == old(qs[k].elems);
      Untouched(qs[k]);
    }
  }

  /** After an element of one of many queues. */
  method InsAfterOne(qs: seq<Queue>, q: nat, i: nat, e: Elem)
    requires World(qs) && Fits(Contents(qs), InsAfter(q, i, e))
    modifies qs[q], e`next, Members(qs)`next
    ensures World(qs) && Contents(qs) == Effect(old(Contents(qs)), InsAfter(q, i, e))
  {
    hide Queue.Valid;
    assert Contents(qs)[q] == qs[q].elems;
    var t := qs[q].At(i);
    qs[q].InsertAfter(t, e, i);
    forall k | 0 <= k < |qs| && k != q
      ensures qs[k].Valid() && qs[k].elems == old(qs[k].elems) && Apart(qs[k].elems, qs[q].elems)
    {
      assert old(Contents(qs))[k] == old(qs[k].elems);
      Untouched(qs[k]);
    }
  }

  /** Removing an element from one of many queues. */
  method RemOne(qs: seq<Queue>, q: nat, i: nat)
    requires World(qs) && Fits(Contents(qs), Rem(q, i))
    modifies qs[q], Members(qs)`next
    ensures World(qs) && Contents(qs) == Effect(old(Contents(qs)), Rem(q, i))
  {
    hide Queue.Valid;
    assert Contents(qs)[q] == qs[q].elems;
    var t := qs[q].At(i);
    qs[q].Remove(t, i);
    forall k | 0 <= k < |qs| && k != q
      ensures qs[k].Valid() && qs[k].elems == old(qs[k].elems) && Apart(qs[k].elems, qs[q].elems)
    {
      assert old(Contents(qs))[k] == old(qs[k].elems);
      Untouched(qs[k]);
    }
  }

  /** Emptying one of many queues. */
  method IniOne(qs: seq<Queue>, q: nat)
    requires World(qs) && Fits(Contents(qs), Ini(q))
    modifies qs[q]
    ensures World(qs) && Contents(qs) == Effect(old(Contents(qs)), Ini(q))
  {
    hide Queue.Valid;
    assert Contents(qs)[q] == qs[q].elems;
    qs[q].Init();
    forall k | 0 <= k < |qs| && k != q
      ensures qs[k].Valid() && qs[k].elems == old(qs[k].elems) && Apart(qs[k].elems, qs[q].elems)
    {
      assert old(Contents(qs))[k] == old(qs[k].elems);
      Untouched(qs[k]);
    }
  }

  /** Appending one of many queues to another. */
  method CatOne(qs: seq<Queue>, q: nat, r: nat)
    requires World(qs) && Fits(Contents(qs), Cat(q, r))
    modifies qs[q], qs[r], Members(qs)`next
    ensures World(qs) && Contents(qs) == Effect(old(Contents(qs)), Cat(q, r))
  {
    hide Queue.Valid;
    assert Contents(qs)[q] == qs[q].elems && Contents(qs)[r] == qs[r].elems;
    qs[q].Concat(qs[r]);
    forall k | 0 <= k < |qs| && k != q && k != r
      ensures qs[k].Valid() && qs[k].elems == old(qs[k].elems)
      ensures Apart(qs[k].elems, qs[q].elems) && Apart(qs[q].elems, qs[k].elems)
    {
      assert old(Contents(qs))[k] == old(qs[k].elems);
      Untouched(qs[k]);
    }
  }

  /** Exchanging two of many queues. */
  method SwpOne(qs: seq<Queue>, q: nat, r: nat)
    requires World(qs) && Fits(Contents(qs), Swp(q, r))
    modifies qs[q], qs[r]
    ensures World(qs) && Contents(qs) == Effect(old(Contents(qs)), Swp(q, r))
  {
    hide Queue.Valid;
    assert Contents(qs)[q] == qs[q].elems && Contents(qs)[r] == qs[r].elems;
    qs[q].Swap(qs[r]);
    forall k | 0 <= k < |qs| && k != q && k != r
      ensures qs[k].Valid() && qs[k].elems == old(qs[k].elems)
      ensures Apart(qs[k].elems, qs[q].elems) && Apart(qs[q].elems, qs[k].elems)
      ensures Apart(qs[k].elems, qs[r].elems) && Apart(qs[r].elems, qs[k].elems)
    {
      assert old(Contents(qs))[k] == old(qs[k].elems);
      Untouched(qs[k]);
    }
  }

  predicate Inserts(op: Op) {
    op.InsHead? || op.InsTail? || op.InsAfter?
  }

  /** The element an operation brings in. */
  function Fresh(op: Op): set<Elem> {
    if Inserts(op) then {op.e} else {}
  }

  ghost function AllOf(s: seq<seq<Elem>>): set<Elem> {
    set k, x | 0 <= k < |s| && x in s[k] :: x
  }

  lemma MembersAreContents(qs: seq<Queue>)
    ensures Members(qs) == AllOf(Contents(qs))
  {
    forall x | x in Members(qs)
      ensures x in AllOf(Contents(qs))
    {
      var k :| 0 <= k < |qs| && x in qs[k].elems;
      assert x in Contents(qs)[k];
    }
    forall x | x in AllOf(Contents(qs))
      ensures x in Members(qs)
    {
      var k :| 0 <= k < |qs| && x in Contents(qs)[k];
      assert x in qs[k].elems;
    }
  }

  lemma MembersGrow(s: seq<seq<Elem>>, op: Op)
    requires Fits(s, op)
    ensures AllOf(Effect(s, op)) <= AllOf(s) + Fresh(op)
  {
    var t := Effect(s, op);
    forall x | x in AllOf(t)
      ensures x in AllOf(s) + Fresh(op)
    {
      var k :| 0 <= k < |t| && x in t[k];
      if x !in Fresh(op) {
        assert x in s[k] || x in s[op.q] || ((op.Cat? || op.Swp?) && x in s[op.r]);
      }
    }
  }

  /** One operation on one of many queues. */
  method Step(qs: seq<Queue>, op: Op)
    requires World(qs) && Fits(Contents(qs), op)
    modifies qs, Members(qs)`next, Fresh(op)`next
    ensures World(qs) && Contents(qs) == Effect(old(Contents(qs)), op)
    ensures Members(qs) <= old(Members(qs)) + Fresh(op)
  {
    MembersGrow(Contents(qs), op);
    MembersAreContents(qs);
    if op.InsHead? {
      InsHeadOne(qs, op.q, op.e);
    } else if op.InsTail? {
      InsTailOne(qs, op.q, op.e);
    } else if op.InsAfter? {
      InsAfterOne(qs, op.q, op.i, op.e);
    } else if op.Rem? {
      RemOne(qs, op.q, op.i);
    } else if op.Cat? {
      CatOne(qs, op.q, op.r);
    } else if op.Swp? {
      SwpOne(qs, op.q, op.r);
    } else {
      IniOne(qs, op.q);
    }
    MembersAreContents(qs);
  }

  ghost predicate FitsRun(s: seq<seq<Elem>>, ops: seq<Op>)
    decreases |ops|
  {
    |ops| == 0 || (Fits(s, ops[0]) && FitsRun(Effect(s, ops[0]), ops[1..]))
  }

  ghost function EffectRun(s: seq<seq<Elem>>, ops: seq<Op>): seq<seq<Elem>>
    requires FitsRun(s, ops)
    decreases |ops|
  {
    if |ops| == 0 then s else EffectRun(Effect(s, ops[0]), ops[1..])
  }

  function AllFresh(ops: seq<Op>): set<Elem>
    decreases |ops|
  {
    if |ops| == 0 then {} else Fresh(ops[0]) + AllFresh(ops[1..])
  }

  /** Every run on any number of queues does to the queues what it does to sequences. */
  method Run(qs: seq<Queue>, ops: seq<Op>)
    requires World(qs) && FitsRun(Contents(qs), ops)
    modifies qs, Members(qs)`next, AllFresh(ops)`next
    ensures World(qs) && Contents(qs) == EffectRun(old(Contents(qs)), ops)
    decreases |ops|
  {
    if |ops| > 0 {
      hide World, Effect, Fits;
      Step(qs, ops[0]);
      Run(qs, ops[1..]);
    }
  }
}
