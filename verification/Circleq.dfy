/**
 CIRCLEQ of queue.h: circular queues, walked in both directions.

 The end of a CIRCLEQ is a pointer to its own head, cast to an element pointer; here `End`. The head
 and the elements have different fields, which is why the macros branch on `End`.
 */
module Circleq {
  import opened Sequences

  datatype Ptr = End | At(elm: Elem)

  class Head {
    var first: Ptr
    var last: Ptr

    /** CIRCLEQ_HEAD_INITIALIZER */
    constructor ()
      ensures Queue(this, [])
    {
      first, last := End, End;
    }
  }

  class Elem {
    var next: Ptr
    var prev: Ptr

    constructor ()
    {
      next, prev := End, End;
    }
  }

  /** The pointer to position i of the circle; position -1 and position |s| are the head. */
  ghost function Place(s: seq<Elem>, i: int): Ptr {
    if 0 <= i < |s| then At(s[i]) else End
  }

  /** The queue holds exactly the elements of `s`, linked in both directions. */
  ghost predicate Queue(head: Head, s: seq<Elem>)
    reads head, s
  {
    && Distinct(s)
    && head.first == Place(s, 0)
    && head.last == Place(s, |s| - 1)
    && (forall i {:trigger s[i].next} :: 0 <= i < |s| ==> s[i].next == Place(s, i + 1))
    && (forall i {:trigger s[i].prev} :: 0 <= i < |s| ==> s[i].prev == Place(s, i - 1))
  }

  /** Where the places of the old sequence are in the new one. */
  lemma InsertedPlaces(s: seq<Elem>, k: nat, elm: Elem)
    requires Distinct(s) && k <= |s| && elm !in s
    ensures Distinct(Inserted(s, k, elm))
    ensures forall i :: i < k ==> Place(Inserted(s, k, elm), i) == Place(s, i)
    ensures forall i :: i > k ==> Place(Inserted(s, k, elm), i) == Place(s, i - 1)
  {
  }

  lemma DroppingPlaces(s: seq<Elem>, k: nat)
    requires Distinct(s) && k < |s|
    ensures Distinct(Dropping(s, k))
    ensures forall i :: i < k ==> Place(Dropping(s, k), i) == Place(s, i)
    ensures forall i :: i >= k ==> Place(Dropping(s, k), i) == Place(s, i + 1)
  {
  }

  /** CIRCLEQ_INIT */
  method Init(head: Head)
    modifies head
    ensures Queue(head, [])
  {
    head.first := End;
    head.last := End;
  }

  /** CIRCLEQ_INSERT_HEAD */
  method InsertHead(head: Head, elm: Elem, ghost s: seq<Elem>)
    requires Queue(head, s) && elm !in s
    modifies head, elm, s
    ensures Queue(head, [elm] + s)
  {
    InsertedPlaces(s, 0, elm);
    assert Inserted(s, 0, elm) == [elm] + s;
    elm.next := head.first;
    elm.prev := End;
    if head.last == End {
      head.last := At(elm);
    } else {
      head.first.elm.prev := At(elm);
    }
    head.first := At(elm);
  }

  /** CIRCLEQ_INSERT_TAIL */
  method InsertTail(head: Head, elm: Elem, ghost s: seq<Elem>)
    requires Queue(head, s) && elm !in s
    modifies head, elm, s
    ensures Queue(head, s + [elm])
  {
    InsertedPlaces(s, |s|, elm);
    assert Inserted(s, |s|, elm) == s + [elm];
    elm.next := End;
    elm.prev := head.last;
    if head.first == End {
      head.first := At(elm);
    } else {
      head.last.elm.next := At(elm);
    }
    head.last := At(elm);
  }

  /** CIRCLEQ_INSERT_BEFORE */
  method InsertBefore(head: Head, listelm: Elem, elm: Elem, ghost s: seq<Elem>, ghost k: nat)
    requires Queue(head, s) && elm !in s && k < |s| && s[k] == listelm
    modifies head, elm, s
    ensures Queue(head, Inserted(s, k, elm))
  {
    InsertedPlaces(s, k, elm);
    elm.next := At(listelm);
    elm.prev := listelm.prev;
    if listelm.prev == End {
      head.first := At(elm);
    } else {
      listelm.prev.elm.next := At(elm);
    }
    listelm.prev := At(elm);
  }

  /** CIRCLEQ_INSERT_AFTER */
  method InsertAfter(head: Head, listelm: Elem, elm: Elem, ghost s: seq<Elem>, ghost k: nat)
    requires Queue(head, s) && elm !in s && k < |s| && s[k] == listelm
    modifies head, elm, s
    ensures Queue(head, Inserted(s, k + 1, elm))
  {
    InsertedPlaces(s, k + 1, elm);
    elm.next := listelm.next;
    elm.prev := At(listelm);
    if listelm.next == End {
      head.last := At(elm);
    } else {
      listelm.next.elm.prev := At(elm);
    }
    listelm.next := At(elm);
  }

  /** CIRCLEQ_REMOVE */
  method Remove(head: Head, elm: Elem, ghost s: seq<Elem>, ghost k: nat)
    requires Queue(head, s) && k < |s| && s[k] == elm
    modifies head, s
    ensures Queue(head, Dropping(s, k))
    ensures elm.next == old(elm.next) && elm.prev == old(elm.prev)
  {
    DroppingPlaces(s, k);
    if elm.next == End {
      head.last := elm.prev;
    } else {
      elm.next.elm.prev := elm.prev;
    }
    if elm.prev == End {
      head.first := elm.next;
    } else {
      elm.prev.elm.next := elm.next;
    }
  }

  // ----- Walks

  /** CIRCLEQ_FOREACH */
  method Foreach(head: Head, ghost s: seq<Elem>) returns (visited: seq<Elem>)
    requires Queue(head, s)
    ensures visited == s
  {
    visited := [];
    var cur := head.first;
    while cur != End
      invariant visited <= s && cur == Place(s, |visited|)
      decreases |s| - |visited|
    {
      visited := visited + [cur.elm];
      cur := cur.elm.next;
    }
  }

  /** CIRCLEQ_FOREACH_REVERSE visits the elements in the opposite order. */
  method ForeachReverse(head: Head, ghost s: seq<Elem>) returns (visited: seq<Elem>)
    requires Queue(head, s)
    ensures |visited| == |s| && forall i :: 0 <= i < |s| ==> visited[i] == s[|s| - 1 - i]
  {
    visited := [];
    var cur := head.last;
    while cur != End
      invariant |visited| <= |s| && cur == Place(s, |s| - 1 - |visited|)
      invariant forall i :: 0 <= i < |visited| ==> visited[i] == s[|s| - 1 - i]
      decreases |s| - |visited|
    {
      visited := visited + [cur.elm];
      cur := cur.elm.prev;
    }
  }

  // ----- The circle

  /** CIRCLEQ_LOOP_NEXT: the successor, past the head to the first element. */
  function LoopNext(head: Head, elm: Elem, ghost s: seq<Elem>): (r: Elem)
    requires Queue(head, s) && elm in s
    reads head, s
    ensures var k := IndexOf(s, elm); r == s[if k == |s| - 1 then 0 else k + 1]
  {
    assert s[IndexOf(s, elm)] == elm;
    if elm.next == End then head.first.elm else elm.next.elm
  }

  /** CIRCLEQ_LOOP_PREV: the predecessor, past the head to the last element. */
  function LoopPrev(head: Head, elm: Elem, ghost s: seq<Elem>): (r: Elem)
    requires Queue(head, s) && elm in s
    reads head, s
    ensures var k := IndexOf(s, elm); r == s[if k == 0 then |s| - 1 else k - 1]
  {
    assert s[IndexOf(s, elm)] == elm;
    if elm.prev == End then head.last.elm else elm.prev.elm
  }

  lemma LoopStepsAt(head: Head, s: seq<Elem>, k: nat)
    requires Queue(head, s) && k < |s|
    ensures LoopNext(head, s[k], s) == s[if k == |s| - 1 then 0 else k + 1]
    ensures LoopPrev(head, s[k], s) == s[if k == 0 then |s| - 1 else k - 1]
  {
    IndexOfUnique(s, k);
  }

  /** Each undoes the other, so both are permutations of the members. */
  lemma LoopInverse(head: Head, elm: Elem, s: seq<Elem>)
    requires Queue(head, s) && elm in s
    ensures LoopNext(head, elm, s) in s && LoopPrev(head, LoopNext(head, elm, s), s) == elm
    ensures LoopPrev(head, elm, s) in s && LoopNext(head, LoopPrev(head, elm, s), s) == elm
  {
    var k := IndexOf(s, elm);
    LoopStepsAt(head, s, k);
    LoopStepsAt(head, s, if k == |s| - 1 then 0 else k + 1);
    LoopStepsAt(head, s, if k == 0 then |s| - 1 else k - 1);
  }

  /** CIRCLEQ_LOOP_NEXT applied n times. */
  ghost function Around(head: Head, elm: Elem, s: seq<Elem>, n: nat): (r: Elem)
    requires Queue(head, s) && elm in s
    reads head, s
    ensures r in s
  {
    if n == 0 then elm else LoopNext(head, Around(head, elm, s, n - 1), s)
  }

  /** CIRCLEQ_LOOP_PREV applied n times. */
  ghost function AroundBack(head: Head, elm: Elem, s: seq<Elem>, n: nat): (r: Elem)
    requires Queue(head, s) && elm in s
    reads head, s
    ensures r in s
  {
    if n == 0 then elm else LoopPrev(head, AroundBack(head, elm, s, n - 1), s)
  }

  lemma LoopIndices(head: Head, elm: Elem, s: seq<Elem>)
    requires Queue(head, s) && elm in s
    ensures LoopNext(head, elm, s) in s && LoopPrev(head, elm, s) in s
    ensures var k := IndexOf(s, elm);
            && IndexOf(s, LoopNext(head, elm, s)) == (if k == |s| - 1 then 0 else k + 1)
            && IndexOf(s, LoopPrev(head, elm, s)) == (if k == 0 then |s| - 1 else k - 1)
  {
    var k := IndexOf(s, elm);
    IndexOfUnique(s, if k == |s| - 1 then 0 else k + 1);
    IndexOfUnique(s, if k == 0 then |s| - 1 else k - 1);
  }

  lemma AroundStep(head: Head, elm: Elem, s: seq<Elem>, n: nat)
    requires Queue(head, s) && elm in s && n > 0
    ensures var k := IndexOf(s, Around(head, elm, s, n - 1));
            IndexOf(s, Around(head, elm, s, n)) == if k == |s| - 1 then 0 else k + 1
  {
    LoopIndices(head, Around(head, elm, s, n - 1), s);
  }

  lemma AroundBackStep(head: Head, elm: Elem, s: seq<Elem>, n: nat)
    requires Queue(head, s) && elm in s && n > 0
    ensures var k := IndexOf(s, AroundBack(head, elm, s, n - 1));
            IndexOf(s, AroundBack(head, elm, s, n)) == if k == 0 then |s| - 1 else k - 1
  {
    LoopIndices(head, AroundBack(head, elm, s, n - 1), s);
  }

  lemma {:induction false} AroundIndex(head: Head, elm: Elem, s: seq<Elem>, n: nat)
    requires Queue(head, s) && elm in s && n <= |s|
    ensures var k := IndexOf(s, elm); IndexOf(s, Around(head, elm, s, n)) == if k + n < |s| then k + n else k + n - |s|
  {
    if n > 0 {
      AroundIndex(head, elm, s, n - 1);
      AroundStep(head, elm, s, n);
    }
  }

  lemma {:induction false} AroundBackIndex(head: Head, elm: Elem, s: seq<Elem>, n: nat)
    requires Queue(head, s) && elm in s && n <= |s|
    ensures var k := IndexOf(s, elm); IndexOf(s, AroundBack(head, elm, s, n)) == if n <= k then k - n else k - n + |s|
  {
    if n > 0 {
      AroundBackIndex(head, elm, s, n - 1);
      AroundBackStep(head, elm, s, n);
    }
  }

  /** Going around as many times as there are members leads back to the start, either way. */
  lemma FullCircle(head: Head, elm: Elem, s: seq<Elem>)
    requires Queue(head, s) && elm in s
    ensures Around(head, elm, s, |s|) == elm && AroundBack(head, elm, s, |s|) == elm
  {
    AroundIndex(head, elm, s, |s|);
    AroundBackIndex(head, elm, s, |s|);
    assert s[IndexOf(s, elm)] == elm;
  }
}
