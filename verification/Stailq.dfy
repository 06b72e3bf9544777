/**
 STAILQ of queue.h: singly linked tail queues.

 A `Cell` is a place that holds a pointer to an element: the stqe_next field of an element, which
 stands for the element itself, or the stqh_first field of a head. `stqh_last` points to the cell
 where a tail insertion has to write.
 */
module Stailq {
  import opened Sequences

  class Cell {
    var next: Cell?

    constructor ()
      ensures next == null
    {
      next := null;
    }
  }

  class Head {
    const first: Cell
    var last: Cell

    /** STAILQ_HEAD_INITIALIZER */
    constructor ()
      ensures fresh(first) && Queue(this, [])
    {
      var cell := new Cell();
      first := cell;
      last := cell;
    }
  }

  ghost predicate Chain(c: seq<Cell>)
    reads c
  {
    && |c| > 0
    && Distinct(c)
    && (forall i {:trigger c[i].next} :: 0 <= i < |c| - 1 ==> c[i].next == c[i + 1])
    && c[|c| - 1].next == null
  }

  /** The queue holds exactly the elements of `s`, and `last` is the last element's cell, or the head's. */
  ghost predicate Queue(head: Head, s: seq<Cell>)
    reads head, head.first, s
  {
    var c := [head.first] + s;
    Chain(c) && head.last == c[|s|]
  }

  /** STAILQ_INIT */
  method Init(head: Head)
    modifies head, head.first
    ensures Queue(head, [])
  {
    head.first.next := null;
    head.last := head.first;
  }

  /** STAILQ_INSERT_HEAD */
  method InsertHead(head: Head, elm: Cell, ghost s: seq<Cell>)
    requires Queue(head, s) && elm != head.first && elm !in s
    modifies head, head.first, elm
    ensures Queue(head, [elm] + s)
  {
    ghost var c, c' := [head.first] + s, [head.first] + ([elm] + s);
    assert c[0] == head.first && (s != [] ==> c[1] == s[0]);
    elm.next := head.first.next;
    if elm.next == null {
      head.last := elm;
    }
    head.first.next := elm;
    assert c'[1] == elm && forall i :: 2 <= i < |c'| ==> c'[i] == c[i - 1];
  }

  /** STAILQ_INSERT_AFTER */
  method InsertAfter(head: Head, listelm: Cell, elm: Cell, ghost s: seq<Cell>, ghost k: nat)
    requires Queue(head, s) && elm != head.first && elm !in s && k < |s| && s[k] == listelm
    modifies head, listelm, elm
    ensures Queue(head, Inserted(s, k + 1, elm))
  {
    ghost var c, c' := [head.first] + s, [head.first] + Inserted(s, k + 1, elm);
    assert c[k + 1] == listelm && (k + 1 < |s| ==> c[k + 2] == s[k + 1]);
    elm.next := listelm.next;
    if elm.next == null {
      head.last := elm;
    }
    listelm.next := elm;
    assert forall i :: 0 <= i <= k + 1 ==> c'[i] == c[i];
    assert c'[k + 2] == elm && forall i :: k + 3 <= i < |c'| ==> c'[i] == c[i - 1];
  }

  /** STAILQ_INSERT_TAIL */
  method InsertTail(head: Head, elm: Cell, ghost s: seq<Cell>)
    requires Queue(head, s) && elm != head.first && elm !in s
    modifies head, head.last, elm
    ensures Queue(head, s + [elm])
  {
    ghost var c, c' := [head.first] + s, [head.first] + (s + [elm]);
    assert c[|s|] == head.last;
    elm.next := null;
    head.last.next := elm;
    head.last := elm;
    assert c' == c + [elm];
  }

  ghost predicate Apart(head1: Head, s1: seq<Cell>, head2: Head, s2: seq<Cell>) {
    && head1 != head2 && head1.first != head2.first && head1.first !in s2 && head2.first !in s1
    && forall i, j :: 0 <= i < |s1| && 0 <= j < |s2| ==> s1[i] != s2[j]
  }

  /** STAILQ_CONCAT */
  method Concat(head1: Head, head2: Head, ghost s1: seq<Cell>, ghost s2: seq<Cell>)
    requires Queue(head1, s1) && Queue(head2, s2) && Apart(head1, s1, head2, s2)
    modifies head1, head1.last, head2, head2.first
    ensures Queue(head1, s1 + s2) && Queue(head2, [])
  {
    ghost var c1, c2, c := [head1.first] + s1, [head2.first] + s2, [head1.first] + (s1 + s2);
    assert c1[|s1|] == head1.last && c2[|s2|] == head2.last && c2[0] == head2.first;
    assert s2 != [] ==> c2[1] == s2[0];
    assert forall i :: 0 <= i <= |s1| ==> c[i] == c1[i];
    assert forall i :: |s1| < i < |c| ==> c[i] == c2[i - |s1|];
    if head2.first.next != null {
      head1.last.next := head2.first.next;
      head1.last := head2.last;
      Init(head2);
    } else {
      assert c == c1;
    }
  }

  /** STAILQ_REMOVE_HEAD_UNTIL: everything up to and including `elm`. */
  method RemoveHeadUntil(head: Head, elm: Cell, ghost s: seq<Cell>, ghost k: nat)
    requires Queue(head, s) && k < |s| && s[k] == elm
    modifies head, head.first
    ensures Queue(head, s[k + 1..])
  {
    ghost var c, c' := [head.first] + s, [head.first] + s[k + 1..];
    assert c[0] == head.first && c[k + 1] == elm && (k + 1 < |s| ==> c[k + 2] == s[k + 1]);
    head.first.next := elm.next;
    if head.first.next == null {
      head.last := head.first;
    }
    assert forall i :: 0 < i < |c'| ==> c'[i] == c[i + k + 1];
  }

  /** STAILQ_REMOVE_HEAD */
  method RemoveHead(head: Head, ghost s: seq<Cell>)
    requires Queue(head, s) && s != []
    modifies head, head.first
    ensures Queue(head, s[1..])
  {
    ghost var c, c' := [head.first] + s, [head.first] + s[1..];
    assert c[0] == head.first && c[1] == s[0] && (|s| > 1 ==> c[2] == s[1]);
    head.first.next := head.first.next.next;
    if head.first.next == null {
      head.last := head.first;
    }
    assert forall i :: 0 < i < |c'| ==> c'[i] == c[i + 1];
  }

  /** STAILQ_REMOVE_AFTER */
  method RemoveAfter(head: Head, elm: Cell, ghost s: seq<Cell>, ghost k: nat)
    requires Queue(head, s) && k + 1 < |s| && s[k] == elm
    modifies head, elm
    ensures Queue(head, Dropping(s, k + 1))
  {
    ghost var c, c' := [head.first] + s, [head.first] + Dropping(s, k + 1);
    assert c[k + 1] == elm && c[k + 2] == s[k + 1] && (k + 2 < |s| ==> c[k + 3] == s[k + 2]);
    elm.next := elm.next.next;
    if elm.next == null {
      head.last := elm;
    }
    assert forall i :: 0 <= i <= k + 1 ==> c'[i] == c[i];
    assert forall i :: k + 2 <= i < |c'| ==> c'[i] == c[i + 1];
  }

  /** STAILQ_REMOVE: a search for the predecessor, then a removal after it. */
  method Remove(head: Head, elm: Cell, ghost s: seq<Cell>, ghost k: nat)
    requires Queue(head, s) && k < |s| && s[k] == elm
    modifies head, head.first, s
    ensures Queue(head, Dropping(s, k))
  {
    ghost var c := [head.first] + s;
    assert forall i :: 0 <= i < |s| ==> c[i + 1] == s[i];
    assert c[0].next == s[0];
    if head.first.next == elm {
      assert k == 0 by {
        assert c[1] == c[k + 1];
      }
      assert Dropping(s, 0) == s[1..];
      RemoveHead(head, s);
    } else {
      var cur := head.first.next;
      ghost var i := 0;
      while cur.next != elm
        invariant 0 <= i < k && cur == s[i]
        decreases k - i
      {
        assert c[i + 1].next == c[i + 2];
        assert i + 1 != k;
        i := i + 1;
        cur := cur.next;
      }
      assert c[i + 1].next == c[i + 2] == c[k + 1];
      RemoveAfter(head, cur, s, i);
    }
  }

  /** STAILQ_SWAP */
  method Swap(head1: Head, head2: Head, ghost s1: seq<Cell>, ghost s2: seq<Cell>)
    requires Queue(head1, s1) && Queue(head2, s2) && Apart(head1, s1, head2, s2)
    modifies head1, head1.first, head2, head2.first
    ensures Queue(head1, s2) && Queue(head2, s1)
  {
    ghost var c1, c2 := [head1.first] + s1, [head2.first] + s2;
    ghost var d1, d2 := [head1.first] + s2, [head2.first] + s1;
    assert c1[0] == head1.first && (s1 != [] ==> c1[1] == s1[0]);
    assert c2[0] == head2.first && (s2 != [] ==> c2[1] == s2[0]);
    var swapFirst, swapLast := head1.first.next, head1.last;
    head1.first.next := head2.first.next;
    head1.last := head2.last;
    head2.first.next := swapFirst;
    head2.last := swapLast;
    if head1.first.next == null {
      head1.last := head1.first;
    }
    if head2.first.next == null {
      head2.last := head2.first;
    }
    assert forall i :: 0 < i < |d1| ==> d1[i] == c2[i];
    assert forall i :: 0 < i < |d2| ==> d2[i] == c1[i];
  }

  /** Two swaps restore every field of both queues. */
  method SwapTwice(head1: Head, head2: Head, ghost s1: seq<Cell>, ghost s2: seq<Cell>)
    requires Queue(head1, s1) && Queue(head2, s2) && Apart(head1, s1, head2, s2)
    modifies head1, head1.first, head2, head2.first
    ensures head1.first.next == old(head1.first.next) && head1.last == old(head1.last)
    ensures head2.first.next == old(head2.first.next) && head2.last == old(head2.last)
  {
    HeadOutside(head1, s1);
    HeadOutside(head2, s2);
    ghost var first1, first2 := First(head1, s1), First(head2, s2);
    Swap(head1, head2, s1, s2);
    Swap(head1, head2, s2, s1);
    assert first1 == First(head1, s1) && first2 == First(head2, s2);
  }

  lemma HeadOutside(head: Head, s: seq<Cell>)
    requires Queue(head, s)
    ensures head.first !in s
  {
    assert ([head.first] + s)[0] == head.first;
    assert forall i :: 0 <= i < |s| ==> s[i] == ([head.first] + s)[i + 1];
  }

  // ----- Access

  /** STAILQ_FIRST */
  function First(head: Head, ghost s: seq<Cell>): (r: Cell?)
    requires Queue(head, s)
    reads head, head.first, s
    ensures r == if s == [] then null else s[0]
  {
    ghost var c := [head.first] + s;
    assert c[0] == head.first && (s != [] ==> c[1] == s[0]);
    head.first.next
  }

  /** STAILQ_LAST: the element around the cell that `stqh_last` points to. */
  function Last(head: Head, ghost s: seq<Cell>): (r: Cell?)
    requires Queue(head, s)
    reads head, head.first, s
    ensures r == if s == [] then null else s[|s| - 1]
  {
    if First(head, s) == null then null else head.last
  }

  // ----- Runs

  datatype Op =
    | AddHead(elm: Cell)
    | AddTail(elm: Cell)
    | AddAfter(listelm: Cell, elm: Cell)
    | DropHead
    | DropUntil(elm: Cell)
    | DropAfter(elm: Cell)
    | Drop(elm: Cell)
    | Clear
    | Join(elms: seq<Cell>)
    | Exchange(elms: seq<Cell>)

  /** The cells the operation brings in. */
  function Incoming(op: Op): seq<Cell> {
    match op
    case AddHead(elm) => [elm]
    case AddTail(elm) => [elm]
    case AddAfter(_, elm) => [elm]
    case Join(elms) => elms
    case Exchange(elms) => elms
    case _ => []
  }

  /** No element twice, and none that is in the queue already. */
  ghost predicate AllNew(head: Head, s: seq<Cell>, elms: seq<Cell>) {
    Distinct(elms) && forall i :: 0 <= i < |elms| ==> elms[i] != head.first && elms[i] !in s
  }

  /** What queue(3) asks of the caller: inserted elements are new, named elements are members. */
  ghost predicate Allowed(head: Head, s: seq<Cell>, op: Op) {
    match op
    case AddHead(elm) => elm != head.first && elm !in s
    case AddTail(elm) => elm != head.first && elm !in s
    case AddAfter(listelm, elm) => listelm in s && elm != head.first && elm !in s
    case DropHead => s != []
    case DropUntil(elm) => elm in s
    case DropAfter(elm) => elm in s && IndexOf(s, elm) + 1 < |s|
    case Drop(elm) => elm in s
    case Clear => true
    case Join(elms) => AllNew(head, s, elms)
    case Exchange(elms) => AllNew(head, s, elms)
  }

  /** The operation on sequences. */
  ghost function Effect(head: Head, s: seq<Cell>, op: Op): seq<Cell>
    requires Allowed(head, s, op)
  {
    match op
    case AddHead(elm) => [elm] + s
    case AddTail(elm) => s + [elm]
    case AddAfter(listelm, elm) => Inserted(s, IndexOf(s, listelm) + 1, elm)
    case DropHead => s[1..]
    case DropUntil(elm) => s[IndexOf(s, elm) + 1..]
    case DropAfter(elm) => Dropping(s, IndexOf(s, elm) + 1)
    case Drop(elm) => Dropping(s, IndexOf(s, elm))
    case Clear => []
    case Join(elms) => s + elms
    case Exchange(elms) => elms
  }

  ghost predicate AllAllowed(head: Head, s: seq<Cell>, ops: seq<Op>)
    decreases |ops|
  {
    ops == [] || (Allowed(head, s, ops[0]) && AllAllowed(head, Effect(head, s, ops[0]), ops[1..]))
  }

  ghost function EffectAll(head: Head, s: seq<Cell>, ops: seq<Op>): seq<Cell>
    requires AllAllowed(head, s, ops)
    decreases |ops|
  {
    if ops == [] then s else EffectAll(head, Effect(head, s, ops[0]), ops[1..])
  }

  /** The cells a run may touch. */
  ghost predicate Covers(cells: set<Cell>, head: Head, s: seq<Cell>) {
    head.first in cells && forall i :: 0 <= i < |s| ==> s[i] in cells
  }

  lemma EffectCovered(cells: set<Cell>, head: Head, s: seq<Cell>, op: Op)
    requires Covers(cells, head, s) && Allowed(head, s, op)
    requires forall i :: 0 <= i < |Incoming(op)| ==> Incoming(op)[i] in cells
    ensures Covers(cells, head, Effect(head, s, op))
  {
    match op
    case AddHead(elm) => assert Incoming(op)[0] == elm;
    case AddTail(elm) => assert Incoming(op)[0] == elm;
    case AddAfter(_, elm) => assert Incoming(op)[0] == elm;
    case Join(elms) => assert Incoming(op) == elms;
    case Exchange(elms) => assert Incoming(op) == elms;
    case _ =>
  }

  lemma LastCovered(cells: set<Cell>, head: Head, s: seq<Cell>)
    requires Queue(head, s) && Covers(cells, head, s)
    ensures head.last in cells
  {
    LastOf(head, s);
  }

  /** A second queue with these elements, each inserted at its tail. */
  method Build(elms: seq<Cell>) returns (other: Head)
    requires Distinct(elms)
    modifies elms
    ensures fresh(other) && fresh(other.first) && Queue(other, elms)
  {
    other := new Head();
    for i := 0 to |elms|
      invariant fresh(other.first) && Queue(other, elms[..i])
    {
      LastOf(other, elms[..i]);
      InsertTail(other, elms[i], elms[..i]);
      assert elms[..i] + [elms[i]] == elms[..i + 1];
    }
    assert elms[..|elms|] == elms;
  }

  lemma LastOf(head: Head, s: seq<Cell>)
    requires Queue(head, s)
    ensures head.last == if s == [] then head.first else s[|s| - 1]
  {
    assert s != [] ==> ([head.first] + s)[|s|] == s[|s| - 1];
  }

  method BuildAndConcat(head: Head, elms: seq<Cell>, ghost s: seq<Cell>)
    requires Queue(head, s) && AllNew(head, s, elms)
    modifies head, head.last, elms
    ensures Queue(head, s + elms)
  {
    LastOf(head, s);
    HeadOutside(head, s);
    var other := Build(elms);
    Concat(head, other, s, elms);
  }

  method BuildAndSwap(head: Head, elms: seq<Cell>, ghost s: seq<Cell>)
    requires Queue(head, s) && AllNew(head, s, elms)
    modifies head, head.first, elms
    ensures Queue(head, elms)
  {
    var other := Build(elms);
    Swap(head, other, s, elms);
  }

  method Perform(head: Head, op: Op, ghost s: seq<Cell>, ghost cells: set<Cell>)
    requires Queue(head, s) && Allowed(head, s, op) && Covers(cells, head, s)
    requires forall i :: 0 <= i < |Incoming(op)| ==> Incoming(op)[i] in cells
    modifies head, cells
    ensures Queue(head, Effect(head, s, op))
  {
    match op
    case AddHead(elm) =>
      assert Incoming(op)[0] == elm;
      InsertHead(head, elm, s);
    case AddTail(elm) =>
      assert Incoming(op)[0] == elm;
      LastCovered(cells, head, s);
      InsertTail(head, elm, s);
    case AddAfter(listelm, elm) =>
      assert Incoming(op)[0] == elm;
      InsertAfter(head, listelm, elm, s, IndexOf(s, listelm));
    case DropHead => RemoveHead(head, s);
    case DropUntil(elm) => RemoveHeadUntil(head, elm, s, IndexOf(s, elm));
    case DropAfter(elm) => RemoveAfter(head, elm, s, IndexOf(s, elm));
    case Drop(elm) => Remove(head, elm, s, IndexOf(s, elm));
    case Clear => Init(head);
    case Join(elms) =>
      assert Incoming(op) == elms;
      LastCovered(cells, head, s);
      BuildAndConcat(head, elms, s);
    case Exchange(elms) =>
      assert Incoming(op) == elms;
      BuildAndSwap(head, elms, s);
  }

  /**
   Any run of operations acts as the run on sequences, and leaves the tail cell right: one more tail
   insertion appends.
   */
  method RunThenInsertTail(head: Head, ops: seq<Op>, elm: Cell, ghost s: seq<Cell>, ghost cells: set<Cell>)
    requires Queue(head, s) && AllAllowed(head, s, ops) && Covers(cells, head, s)
    requires forall i, j :: 0 <= i < |ops| && 0 <= j < |Incoming(ops[i])| ==> Incoming(ops[i])[j] in cells
    requires elm in cells && elm != head.first && elm !in EffectAll(head, s, ops)
    modifies head, cells
    ensures Queue(head, EffectAll(head, s, ops) + [elm])
  {
    ghost var q := s;
    assert ops[0..] == ops;
    for i := 0 to |ops|
      invariant Queue(head, q) && Covers(cells, head, q)
      invariant AllAllowed(head, q, ops[i..]) && EffectAll(head, q, ops[i..]) == EffectAll(head, s, ops)
    {
      assert ops[i..][0] == ops[i] && ops[i..][1..] == ops[i + 1..];
      EffectCovered(cells, head, q, ops[i]);
      Perform(head, ops[i], q, cells);
      q := Effect(head, q, ops[i]);
    }
    Perform(head, AddTail(elm), q, cells);
  }
}
