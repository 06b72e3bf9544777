/**
 TAILQ of queue.h: tail queues with a backward walk.

 A TAILQ_HEAD {tqh_first, tqh_last} and a TAILQ_ENTRY {tqe_next, tqe_prev} have the same layout, and
 the address of the first field is the address of the structure. TAILQ_LAST and TAILQ_PREV rely on
 this when they read a link's second field through a head pointer. One class of links therefore
 stands for both: `next` is tqh_first or tqe_next, `prev` is tqh_last or tqe_prev, and `*p` for a
 pointer to a next field is `p.next`.
 */
module Tailq {
  import opened Sequences

  class Link {
    var next: Link?
    var prev: Link

    /** Storage whose fields no queue uses yet. */
    constructor ()
      ensures next == null && prev == this
    {
      next, prev := null, this;
    }
  }

  /** Cells linked forward up to null, and backward in a circle. */
  ghost predicate Chain(c: seq<Link>)
    reads c
  {
    && |c| > 0
    && Distinct(c)
    && (forall i {:trigger c[i].next} :: 0 <= i < |c| - 1 ==> c[i].next == c[i + 1])
    && c[|c| - 1].next == null
    && (forall i {:trigger c[i].prev} :: 0 < i < |c| ==> c[i].prev == c[i - 1])
    && c[0].prev == c[|c| - 1]
  }

  /** The queue with this head holds exactly the elements of `s`, in this order. */
  ghost predicate Queue(head: Link, s: seq<Link>)
    reads head, s
  {
    Chain([head] + s)
  }

  /** TAILQ_INIT */
  method Init(head: Link)
    modifies head
    ensures Queue(head, [])
  {
    head.next := null;
    head.prev := head;
  }

  /** TAILQ_INSERT_HEAD */
  method InsertHead(head: Link, elm: Link, ghost s: seq<Link>)
    requires Queue(head, s) && elm != head && elm !in s
    modifies head, elm, s
    ensures Queue(head, [elm] + s)
  {
    assert ([head] + s)[0] == head;
    assert s != [] ==> ([head] + s)[1] == s[0];
    elm.next := head.next;
    if elm.next != null {
      head.next.prev := elm;
    } else {
      head.prev := elm;
    }
    head.next := elm;
    elm.prev := head;
    ghost var c := [head] + s;
    ghost var c' := [head] + ([elm] + s);
    assert forall i :: 2 <= i < |c'| ==> c'[i] == c[i - 1];
  }

  /** TAILQ_INSERT_BEFORE, which needs no head: the cell before `listelm` may be the head. */
  method InsertBefore(listelm: Link, elm: Link, ghost head: Link, ghost s: seq<Link>, ghost k: nat)
    requires Queue(head, s) && elm != head && elm !in s && k < |s| && s[k] == listelm
    modifies head, elm, s
    ensures Queue(head, Inserted(s, k, elm))
  {
    ghost var c := [head] + s;
    assert c[k + 1] == listelm && listelm.prev == c[k];
    elm.prev := listelm.prev;
    elm.next := listelm;
    listelm.prev.next := elm;
    listelm.prev := elm;
    ghost var c' := [head] + Inserted(s, k, elm);
    assert forall i :: 0 <= i <= k ==> c'[i] == c[i];
    assert c'[k + 1] == elm;
    assert forall i :: k + 2 <= i < |c'| ==> c'[i] == c[i - 1];
  }

  /** TAILQ_INSERT_AFTER */
  method InsertAfter(head: Link, listelm: Link, elm: Link, ghost s: seq<Link>, ghost k: nat)
    requires Queue(head, s) && elm != head && elm !in s && k < |s| && s[k] == listelm
    modifies head, elm, s
    ensures Queue(head, Inserted(s, k + 1, elm))
  {
    ghost var c := [head] + s;
    assert c[k + 1] == listelm;
    assert k + 1 < |s| ==> listelm.next == c[k + 2];
    elm.next := listelm.next;
    if elm.next != null {
      elm.next.prev := elm;
    } else {
      head.prev := elm;
    }
    listelm.next := elm;
    elm.prev := listelm;
    ghost var c' := [head] + Inserted(s, k + 1, elm);
    assert forall i :: 0 <= i <= k + 1 ==> c'[i] == c[i];
    assert c'[k + 2] == elm;
    assert forall i :: k + 3 <= i < |c'| ==> c'[i] == c[i - 1];
  }

  /** TAILQ_INSERT_TAIL */
  method InsertTail(head: Link, elm: Link, ghost s: seq<Link>)
    requires Queue(head, s) && elm != head && elm !in s
    modifies head, elm, s
    ensures Queue(head, s + [elm])
  {
    ghost var c := [head] + s;
    assert head == c[0] && head.prev == c[|s|];
    elm.next := null;
    elm.prev := head.prev;
    head.prev.next := elm;
    head.prev := elm;
    ghost var c' := [head] + (s + [elm]);
    assert forall i :: 0 <= i < |c| ==> c'[i] == c[i];
  }

  /** TAILQ_REMOVE. Only the head and the two neighbours change; the removed element keeps its fields. */
  method Remove(head: Link, elm: Link, ghost s: seq<Link>, ghost k: nat)
    requires Queue(head, s) && k < |s| && s[k] == elm
    modifies head, elm.prev, if elm.next == null then {} else {elm.next}
    ensures Queue(head, Dropping(s, k))
    ensures elm.next == old(elm.next) && elm.prev == old(elm.prev)
  {
    ghost var c := [head] + s;
    assert c[k + 1] == elm && elm.prev == c[k];
    assert k + 1 < |s| ==> elm.next == c[k + 2];
    if elm.next != null {
      elm.next.prev := elm.prev;
    } else {
      head.prev := elm.prev;
    }
    elm.prev.next := elm.next;
    ghost var c' := [head] + Dropping(s, k);
    assert forall i :: 0 <= i <= k ==> c'[i] == c[i];
    assert forall i :: k + 1 <= i < |c'| ==> c'[i] == c[i + 1];
  }

  /** TAILQ_REPLACE */
  method Replace(head: Link, elm: Link, elm2: Link, ghost s: seq<Link>, ghost k: nat)
    requires Queue(head, s) && elm2 != head && elm2 !in s && k < |s| && s[k] == elm
    modifies head, elm2, s
    ensures Queue(head, s[k := elm2])
  {
    ghost var c := [head] + s;
    assert c[k + 1] == elm && elm.prev == c[k];
    assert k + 1 < |s| ==> elm.next == c[k + 2];
    elm2.next := elm.next;
    if elm2.next != null {
      elm2.next.prev := elm2;
    } else {
      head.prev := elm2;
    }
    elm2.prev := elm.prev;
    elm2.prev.next := elm2;
    ghost var c' := [head] + s[k := elm2];
    assert c' == c[k + 1 := elm2];
  }

  ghost predicate Apart(head1: Link, s1: seq<Link>, head2: Link, s2: seq<Link>) {
    && head1 != head2 && head1 !in s2 && head2 !in s1
    && forall i, j :: 0 <= i < |s1| && 0 <= j < |s2| ==> s1[i] != s2[j]
  }

  /** TAILQ_CONCAT */
  method Concat(head1: Link, head2: Link, ghost s1: seq<Link>, ghost s2: seq<Link>)
    requires Queue(head1, s1) && Queue(head2, s2) && Apart(head1, s1, head2, s2)
    modifies head1, head2, s1, s2
    ensures Queue(head1, s1 + s2) && Queue(head2, [])
  {
    ghost var c1, c2 := [head1] + s1, [head2] + s2;
    assert head1 == c1[0] && head1.prev == c1[|s1|];
    assert head2 == c2[0] && head2.prev == c2[|s2|];
    assert s2 != [] ==> head2.next == c2[1];
    ghost var c := [head1] + (s1 + s2);
    assert forall i :: 0 <= i <= |s1| ==> c[i] == c1[i];
    assert forall i :: |s1| < i < |c| ==> c[i] == c2[i - |s1|];
    if head2.next != null {
      head1.prev.next := head2.next;
      head2.next.prev := head1.prev;
      head1.prev := head2.prev;
      Init(head2);
    } else {
      assert c == c1;
    }
  }

  /** TAILQ_SWAP */
  method Swap(head1: Link, head2: Link, ghost s1: seq<Link>, ghost s2: seq<Link>)
    requires Queue(head1, s1) && Queue(head2, s2) && Apart(head1, s1, head2, s2)
    modifies head1, head2, s1, s2
    ensures Queue(head1, s2) && Queue(head2, s1)
  {
    ghost var c1, c2 := [head1] + s1, [head2] + s2;
    assert head1 == c1[0] && (s1 != [] ==> head1.next == c1[1]);
    assert head2 == c2[0] && (s2 != [] ==> head2.next == c2[1]);
    var swapFirst, swapLast := head1.next, head1.prev;
    head1.next := head2.next;
    head1.prev := head2.prev;
    head2.next := swapFirst;
    head2.prev := swapLast;
    swapFirst := head1.next;
    if swapFirst != null {
      swapFirst.prev := head1;
    } else {
      head1.prev := head1;
    }
    swapFirst := head2.next;
    if swapFirst != null {
      swapFirst.prev := head2;
    } else {
      head2.prev := head2;
    }
    assert Queue(head1, s2) by {
      assert forall i :: 0 < i < |c2| ==> ([head1] + s2)[i] == c2[i];
    }
    assert Queue(head2, s1) by {
      assert forall i :: 0 < i < |c1| ==> ([head2] + s1)[i] == c1[i];
    }
  }

  /** Every field of a cell follows from its place in the chain. */
  ghost predicate FieldsAt(c: seq<Link>, i: nat)
    requires i < |c|
    reads c[i]
  {
    c[i].next == (if i == |c| - 1 then null else c[i + 1]) && c[i].prev == c[if i == 0 then |c| - 1 else i - 1]
  }

  lemma ChainFields(c: seq<Link>)
    requires Chain(c)
    ensures forall i :: 0 <= i < |c| ==> FieldsAt(c, i)
  {
  }

  lemma HeadOutside(head: Link, s: seq<Link>)
    requires Queue(head, s)
    ensures head !in s
  {
    assert forall i :: 0 <= i < |s| ==> s[i] == ([head] + s)[i + 1];
  }

  /** Two swaps restore every field of both queues: the sequences determine them. */
  method SwapTwice(head1: Link, head2: Link, ghost s1: seq<Link>, ghost s2: seq<Link>)
    requires Queue(head1, s1) && Queue(head2, s2) && Apart(head1, s1, head2, s2)
    modifies head1, head2, s1, s2
    ensures Queue(head1, s1) && Queue(head2, s2)
    ensures forall x :: x in [head1] + s1 || x in [head2] + s2 ==> x.next == old(x.next) && x.prev == old(x.prev)
  {
    ghost var c1, c2 := [head1] + s1, [head2] + s2;
    ChainFields(c1);
    ChainFields(c2);
    HeadOutside(head1, s1);
    HeadOutside(head2, s2);
    Swap(head1, head2, s1, s2);
    Swap(head1, head2, s2, s1);
    ChainFields(c1);
    ChainFields(c2);
    forall x | x in c1 || x in c2 ensures x.next == old(x.next) && x.prev == old(x.prev) {
      ghost var c := if x in c1 then c1 else c2;
      ghost var i :| 0 <= i < |c| && c[i] == x;
      assert old(FieldsAt(c, i)) && FieldsAt(c, i);
    }
  }

  // ----- Access

  /** TAILQ_FIRST */
  function First(head: Link, ghost s: seq<Link>): (r: Link?)
    requires Queue(head, s)
    reads head, s
    ensures r == if s == [] then null else s[0]
  {
    assert ([head] + s)[0] == head;
    assert s != [] ==> ([head] + s)[1] == s[0];
    head.next
  }

  /** TAILQ_NEXT */
  function Next(elm: Link, ghost head: Link, ghost s: seq<Link>, ghost k: nat): (r: Link?)
    requires Queue(head, s) && k < |s| && s[k] == elm
    reads head, s
    ensures r == if k == |s| - 1 then null else s[k + 1]
  {
    assert ([head] + s)[k + 1] == elm;
    assert k + 1 < |s| ==> ([head] + s)[k + 2] == s[k + 1];
    elm.next
  }

  /** TAILQ_LAST: the last element's link read as if it were a head. */
  function Last(head: Link, ghost s: seq<Link>): (r: Link?)
    requires Queue(head, s)
    reads head, s
    ensures r == if s == [] then null else s[|s| - 1]
  {
    ghost var c := [head] + s;
    assert c[0] == head && head.prev == c[|s|];
    assert s != [] ==> c[|s|].prev == c[|s| - 1];
    head.prev.prev.next
  }

  /** TAILQ_PREV: the previous cell, which may be the head, read as a head; NULL before the first. */
  function Prev(elm: Link, ghost head: Link, ghost s: seq<Link>, ghost k: nat): (r: Link?)
    requires Queue(head, s) && k < |s| && s[k] == elm
    reads head, s
    ensures r == if k == 0 then null else s[k - 1]
  {
    ghost var c := [head] + s;
    assert c[k + 1] == elm && elm.prev == c[k];
    assert k > 0 ==> c[k].prev == c[k - 1];
    elm.prev.prev.next
  }

  // ----- Walks

  function Reversed<T>(s: seq<T>): (r: seq<T>)
    ensures |r| == |s|
    ensures forall i :: 0 <= i < |s| ==> r[i] == s[|s| - 1 - i]
  {
    if s == [] then [] else Reversed(s[1..]) + [s[0]]
  }

  /** The elements of `s` from the last one back to index k. */
  ghost function Backwards<T>(s: seq<T>, k: nat): (r: seq<T>)
    requires k <= |s|
    ensures |r| == |s| - k
    decreases |s| - k
  {
    if k == |s| then [] else Backwards(s, k + 1) + [s[k]]
  }

  lemma {:induction false} BackwardsAt<T>(s: seq<T>, k: nat, i: nat)
    requires k <= |s| && i < |s| - k
    ensures Backwards(s, k)[i] == s[|s| - 1 - i]
    decreases |s| - k
  {
    if i < |s| - k - 1 {
      BackwardsAt(s, k + 1, i);
    }
  }

  lemma BackwardsReverses<T>(s: seq<T>)
    ensures Backwards(s, 0) == Reversed(s)
  {
    forall i | 0 <= i < |s| ensures Backwards(s, 0)[i] == Reversed(s)[i] {
      BackwardsAt(s, 0, i);
    }
  }

  /** TAILQ_FOREACH */
  method Foreach(head: Link, ghost s: seq<Link>) returns (visited: seq<Link>)
    requires Queue(head, s)
    ensures visited == s
  {
    visited := [];
    var cur := First(head, s);
    while cur != null
      invariant visited <= s
      invariant cur == if visited == s then null else s[|visited|]
      decreases |s| - |visited|
    {
      ghost var k := |visited|;
      visited := visited + [cur];
      cur := Next(cur, head, s, k);
    }
  }

  /** TAILQ_FOREACH_REVERSE visits exactly the reversed sequence. */
  method ForeachReverse(head: Link, ghost s: seq<Link>) returns (visited: seq<Link>)
    requires Queue(head, s)
    ensures visited == Reversed(s)
  {
    visited := [];
    var cur := Last(head, s);
    ghost var k: nat := |s|;
    while cur != null
      invariant k <= |s| && visited == Backwards(s, k)
      invariant cur == if k == 0 then null else s[k - 1]
      decreases k
    {
      visited := visited + [cur];
      cur := Prev(cur, head, s, k - 1);
      k := k - 1;
    }
    BackwardsReverses(s);
  }

  /** The elements of `s` from index `k` on that are outside `doomed`, in order. */
  ghost function Without(s: seq<Link>, k: nat, doomed: set<Link>): seq<Link>
    requires k <= |s|
    decreases |s| - k
  {
    if k == |s| then [] else (if s[k] in doomed then [] else [s[k]]) + Without(s, k + 1, doomed)
  }

  /** What is left once the elements from index `k` on have been visited. */
  ghost function Left(s: seq<Link>, k: nat, doomed: set<Link>): (q: seq<Link>)
    requires k <= |s|
    ensures |q| >= k
  {
    s[..k] + Without(s, k, doomed)
  }

  lemma LeftEnds(s: seq<Link>, doomed: set<Link>)
    ensures Left(s, |s|, doomed) == s
    ensures Left(s, 0, doomed) == Without(s, 0, doomed)
  {
  }

  lemma Splice<T>(a: seq<T>, x: T, rest: seq<T>)
    ensures var q := (a + [x]) + rest;
            q == a + ([x] + rest) && Dropping(q, |a|) == a + rest
  {
  }

  lemma LeftStep(s: seq<Link>, k: nat, doomed: set<Link>)
    requires k < |s|
    ensures var q := Left(s, k + 1, doomed);
            Left(s, k, doomed) == if s[k] in doomed then Dropping(q, k) else q
  {
    assert s[..k + 1] == s[..k] + [s[k]];
    Splice(s[..k], s[k], Without(s, k + 1, doomed));
    if s[k] in doomed {
      assert Without(s, k, doomed) == Without(s, k + 1, doomed);
    }
  }

  lemma {:induction false} WithoutWithin(s: seq<Link>, k: nat, doomed: set<Link>, i: nat)
    requires k <= |s| && i < |Without(s, k, doomed)|
    ensures Without(s, k, doomed)[i] in s
    decreases |s| - k
  {
    var kept := if s[k] in doomed then 0 else 1;
    if i >= kept {
      WithoutWithin(s, k + 1, doomed, i - kept);
    }
  }

  lemma Neighbours(head: Link, q: seq<Link>, k: nat)
    requires Queue(head, q) && k < |q|
    ensures q[k].prev == if k == 0 then head else q[k - 1]
    ensures q[k].next == if k == |q| - 1 then null else q[k + 1]
  {
    var c := [head] + q;
    assert c[k + 1] == q[k] && c[k] == if k == 0 then head else q[k - 1];
    assert k + 1 < |q| ==> c[k + 2] == q[k + 1];
  }

  /** The neighbours that removing the element just visited will change are in the queue. */
  lemma VisitFootprint(head: Link, s: seq<Link>, k: nat, doomed: set<Link>)
    requires k < |s| && Queue(head, Left(s, k + 1, doomed))
    ensures s[k].prev == head || s[k].prev in s
    ensures s[k].next == null || s[k].next in s
  {
    var q := Left(s, k + 1, doomed);
    assert q[k] == s[k] && (k > 0 ==> q[k - 1] == s[k - 1]);
    Neighbours(head, q, k);
    if k + 1 < |q| {
      assert q[k + 1] == Without(s, k + 1, doomed)[0];
      WithoutWithin(s, k + 1, doomed, 0);
    }
  }

  /** One round of the walk below: remember the previous element, then perhaps remove this one. */
  method VisitReverse(head: Link, cur: Link, doomed: set<Link>, ghost s: seq<Link>, ghost k: nat) returns (prev: Link?)
    requires k < |s| && cur == s[k] && Queue(head, Left(s, k + 1, doomed))
    modifies head, cur.prev, if cur.next == null then {} else {cur.next}
    ensures Queue(head, Left(s, k, doomed))
    ensures prev == if k == 0 then null else s[k - 1]
  {
    ghost var q := Left(s, k + 1, doomed);
    assert q[k] == s[k] && (k > 0 ==> q[k - 1] == s[k - 1]);
    prev := Prev(cur, head, q, k);
    if cur in doomed {
      Remove(head, cur, q, k);
    }
    LeftStep(s, k, doomed);
  }

  /**
   TAILQ_FOREACH_REVERSE_SAFE with TAILQ_REMOVE in its body: whatever subset is removed on the way,
   every element is visited once, from last to first, and the rest stay in order.
   */
  method RemoveDuringReverse(head: Link, doomed: set<Link>, ghost s: seq<Link>) returns (visited: seq<Link>)
    requires Queue(head, s)
    modifies head, s
    ensures visited == Reversed(s)
    ensures Queue(head, Without(s, 0, doomed))
  {
    visited := [];
    var cur := Last(head, s);
    LeftEnds(s, doomed);
    ghost var k: nat := |s|;
    while cur != null
      invariant k <= |s| && visited == Backwards(s, k)
      invariant Queue(head, Left(s, k, doomed))
      invariant cur == if k == 0 then null else s[k - 1]
      decreases k
    {
      VisitFootprint(head, s, k - 1, doomed);
      visited := visited + [cur];
      cur := VisitReverse(head, cur, doomed, s, k - 1);
      k := k - 1;
    }
    BackwardsReverses(s);
  }
}
