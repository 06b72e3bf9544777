/**
 SLIST of queue.h, with the elements the server keeps in it: one record per connection thread.
 */
module Slist {
  import opened Sequences

  /** struct slist_data_s, as far as the main loop uses it. */
  class Node {
    var threadComplete: bool
    var next: Node?

    constructor ()
      ensures !threadComplete && next == null
    {
      threadComplete, next := false, null;
    }
  }

  class Head {
    var first: Node?

    /** SLIST_INIT */
    constructor ()
      ensures List(this, [])
    {
      first := null;
    }
  }

  ghost function Place(s: seq<Node>, i: nat): Node? {
    if i < |s| then s[i] else null
  }

  /** The list holds exactly the elements of `s`. */
  ghost predicate List(head: Head, s: seq<Node>)
    reads head, s
  {
    && Distinct(s)
    && head.first == Place(s, 0)
    && forall i {:trigger s[i].next} :: 0 <= i < |s| ==> s[i].next == Place(s, i + 1)
  }

  ghost predicate Within(s: seq<Node>, nodes: set<Node>) {
    forall i :: 0 <= i < |s| ==> s[i] in nodes
  }

  /** SLIST_INSERT_HEAD */
  method InsertHead(head: Head, elm: Node, ghost s: seq<Node>)
    requires List(head, s) && elm !in s
    modifies head, elm`next
    ensures List(head, [elm] + s)
  {
    ghost var t := [elm] + s;
    assert forall i :: 1 <= i < |t| ==> t[i] == s[i - 1];
    elm.next := head.first;
    head.first := elm;
  }

  /** SLIST_REMOVE_HEAD */
  method RemoveHead(head: Head, ghost s: seq<Node>)
    requires List(head, s) && s != []
    modifies head
    ensures List(head, s[1..])
  {
    head.first := head.first.next;
  }

  /** SLIST_REMOVE: only the head, or one link field, changes. */
  method Remove(head: Head, elm: Node, ghost s: seq<Node>, ghost k: nat, ghost nodes: set<Node>)
    requires List(head, s) && k < |s| && s[k] == elm && Within(s, nodes)
    modifies head, nodes`next
    ensures List(head, Dropping(s, k))
  {
    if head.first == elm {
      assert Dropping(s, 0) == s[1..];
      RemoveHead(head, s);
    } else {
      var cur := head.first;
      ghost var i := 0;
      while cur.next != elm
        invariant 0 <= i < k && cur == s[i]
        decreases k - i
      {
        assert s[i].next == s[i + 1] && i + 1 != k;
        i := i + 1;
        cur := cur.next;
      }
      assert s[i].next == s[i + 1] && i + 1 == k;
      cur.next := cur.next.next;
    }
  }

  /** SLIST_SWAP */
  method Swap(head1: Head, head2: Head, ghost s1: seq<Node>, ghost s2: seq<Node>)
    requires List(head1, s1) && List(head2, s2) && head1 != head2
    modifies head1, head2
    ensures List(head1, s2) && List(head2, s1)
  {
    var swapFirst := head1.first;
    head1.first := head2.first;
    head2.first := swapFirst;
  }
}
