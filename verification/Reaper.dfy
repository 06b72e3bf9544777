/**
 The main thread of aesdsocket.c: it accepts connections, starts a thread for each, joins those that
 report completion, and joins the rest when a signal ends the loop.

 Connection threads set their completion flags at any time. The flags that flip before each look of
 the main thread are an input, as sets of thread numbers in order of creation.
 */
module Reaper {
  import opened Sequences
  import opened Slist

  /** The elements of `s` at the positions where `seen` is `flag`, in order. */
  ghost function Select(s: seq<Node>, seen: seq<bool>, flag: bool): seq<Node>
    requires |seen| == |s|
  {
    if s == [] then [] else
    var n := |s| - 1;
    Select(s[..n], seen[..n], flag) + if seen[n] == flag then [s[n]] else []
  }

  /** A walk in progress: what was passed, with the looks taken, what of it is kept or gone, what is left. */
  datatype Walk = Walk(done: seq<Node>, seen: seq<bool>, kept: seq<Node>, gone: seq<Node>, rest: seq<Node>)

  ghost predicate Walking(w: Walk, s: seq<Node>) {
    && s == w.done + w.rest
    && |w.seen| == |w.done|
    && w.kept == Select(w.done, w.seen, false)
    && w.gone == Select(w.done, w.seen, true)
  }

  ghost function Look(w: Walk, complete: bool): Walk
    requires w.rest != []
  {
    var x := w.rest[0];
    Walk(w.done + [x], w.seen + [complete], if complete then w.kept else w.kept + [x],
         if complete then w.gone + [x] else w.gone, w.rest[1..])
  }

  lemma LookKeepsWalking(w: Walk, s: seq<Node>, complete: bool)
    requires Walking(w, s) && w.rest != []
    ensures Walking(Look(w, complete), s)
    ensures |w.seen| < |s| && w.rest[0] == s[|w.seen|]
  {
    var w' := Look(w, complete);
    assert w'.done[..|w.done|] == w.done && w'.seen[..|w.done|] == w.seen;
    assert w'.done + w'.rest == s;
  }

  lemma WalkEnds(w: Walk, s: seq<Node>)
    requires Walking(w, s) && w.rest == []
    ensures |w.seen| == |s| && w.kept == Select(s, w.seen, false) && w.gone == Select(s, w.seen, true)
  {
    assert w.done == s;
  }

  lemma DropMiddle(front: seq<Node>, rest: seq<Node>)
    requires rest != []
    ensures Dropping(front + rest, |front|) == front + rest[1..]
    ensures (front + [rest[0]]) + rest[1..] == front + rest
    ensures (front + rest)[|front|] == rest[0] && Place(front + rest, |front| + 1) == Place(rest, 1)
  {
  }

  lemma LookWithin(w: Walk, complete: bool, nodes: set<Node>)
    requires w.rest != [] && Within(w.kept + w.rest, nodes)
    ensures Within(Look(w, complete).kept + Look(w, complete).rest, nodes)
  {
    var q, w' := w.kept + w.rest, Look(w, complete);
    DropMiddle(w.kept, w.rest);
    assert forall i :: 0 <= i < |w'.kept + w'.rest| ==> (w'.kept + w'.rest)[i] in q;
  }

  // ----- The pass over the list

  /** The threads named in `which` report completion. */
  method Flip(threads: seq<Node>, which: set<nat>)
    requires Distinct(threads)
    modifies threads`threadComplete
    ensures forall x: Node :: old(allocated(x)) && old(x.threadComplete) ==> x.threadComplete
  {
    forall i | 0 <= i < |threads| && i in which {
      threads[i].threadComplete := true;
    }
  }

  /** The threads in the list that have reported completion. */
  ghost function Completed(s: seq<Node>): set<Node>
    reads s
  {
    set x | x in s && x.threadComplete
  }

  /** One round: fetch the next element, look at the flag, perhaps remove the element. */
  method Visit(head: Head, elem: Node, threads: seq<Node>, which: set<nat>,
               ghost q: seq<Node>, ghost k: nat, ghost nodes: set<Node>)
    returns (tdatap: Node?, complete: bool)
    requires List(head, q) && k < |q| && q[k] == elem && Within(q, nodes) && Distinct(threads)
    modifies head, nodes`next, threads`threadComplete
    ensures List(head, if complete then Dropping(q, k) else q) && tdatap == Place(q, k + 1)
    ensures (old(elem.threadComplete) ==> complete) && (complete ==> elem.threadComplete)
    ensures forall x: Node :: old(allocated(x)) && old(x.threadComplete) ==> x.threadComplete
  {
    tdatap := elem.next;
    Flip(threads, which);
    complete := elem.threadComplete;
    if complete {
      Remove(head, elem, q, k, nodes);
    }
  }

  /** The same round, as a step of the walk `w`. */
  method VisitNext(head: Head, elem: Node, threads: seq<Node>, which: set<nat>,
                   ghost w: Walk, ghost s: seq<Node>, ghost nodes: set<Node>)
    returns (tdatap: Node?, complete: bool)
    requires Walking(w, s) && List(head, w.kept + w.rest) && w.rest != [] && elem == w.rest[0]
    requires Within(w.kept + w.rest, nodes) && Distinct(threads)
    modifies head, nodes`next, threads`threadComplete
    ensures Walking(Look(w, complete), s) && tdatap == Place(w.rest, 1)
    ensures List(head, Look(w, complete).kept + Look(w, complete).rest)
    ensures Within(Look(w, complete).kept + Look(w, complete).rest, nodes)
    ensures (old(elem.threadComplete) ==> complete) && (complete ==> elem.threadComplete)
    ensures forall x: Node :: old(allocated(x)) && old(x.threadComplete) ==> x.threadComplete
  {
    DropMiddle(w.kept, w.rest);
    tdatap, complete := Visit(head, elem, threads, which, w.kept + w.rest, |w.kept|, nodes);
    LookKeepsWalking(w, s, complete);
    LookWithin(w, complete, nodes);
  }

  /** Between two rounds; `early` are the threads that were complete when the pass began. */
  ghost predicate Reaping(head: Head, s: seq<Node>, nodes: set<Node>, early: set<Node>, w: Walk, joined: seq<Node>)
    reads head, w.kept + w.rest, early, joined
  {
    && Walking(w, s) && joined == w.gone
    && List(head, w.kept + w.rest) && Within(w.kept + w.rest, nodes)
    && (forall x :: x in early ==> x.threadComplete)
    && (forall i :: 0 <= i < |w.kept| ==> w.kept[i] !in early)
    && (forall i :: 0 <= i < |joined| ==> joined[i].threadComplete)
  }

  method ReapNext(head: Head, elem: Node, threads: seq<Node>, which: set<nat>, joined: seq<Node>,
                  ghost s: seq<Node>, ghost nodes: set<Node>, ghost early: set<Node>, ghost w: Walk)
    returns (tdatap: Node?, joined': seq<Node>, ghost w': Walk)
    requires Reaping(head, s, nodes, early, w, joined) && w.rest != [] && elem == w.rest[0] && Distinct(threads)
    modifies head, nodes`next, threads`threadComplete
    ensures Reaping(head, s, nodes, early, w', joined')
    ensures w'.rest == w.rest[1..] && tdatap == Place(w'.rest, 0)
  {
    var complete;
    tdatap, complete := VisitNext(head, elem, threads, which, w, s, nodes);
    w' := Look(w, complete);
    joined' := if complete then joined + [elem] else joined;
  }

  /**
   SLIST_FOREACH_SAFE over the list, joining and removing the threads seen complete. The others stay,
   in order; a thread that was complete when the pass began is certainly seen complete.
   */
  method ReapList(head: Head, threads: seq<Node>, flips: seq<set<nat>>, ghost s: seq<Node>, ghost nodes: set<Node>)
    returns (joined: seq<Node>, ghost seen: seq<bool>)
    requires List(head, s) && Within(s, nodes) && Distinct(threads)
    modifies head, nodes`next, threads`threadComplete
    ensures |seen| == |s| && List(head, Select(s, seen, false)) && joined == Select(s, seen, true)
    ensures forall i :: 0 <= i < |Select(s, seen, false)| ==> Select(s, seen, false)[i] !in old(Completed(s))
    ensures forall i :: 0 <= i < |joined| ==> joined[i].threadComplete
  {
    joined := [];
    ghost var early, w := Completed(s), Walk([], [], [], [], s);
    assert w.kept + w.rest == s;
    var elem := head.first;
    var round := 0;
    while elem != null
      invariant Reaping(head, s, nodes, early, w, joined) && elem == Place(w.rest, 0)
      decreases |w.rest|
    {
      var which := if round < |flips| then flips[round] else {};
      elem, joined, w := ReapNext(head, elem, threads, which, joined, s, nodes, early, w);
      round := round + 1;
    }
    WalkEnds(w, s);
    seen := w.seen;
    assert w.kept + w.rest == w.kept;
  }

  // ----- The account of created and joined threads

  ghost function Elements(s: seq<Node>): set<Node> {
    set x | x in s
  }

  /** `waiting` and `joined` share out the created threads; none is joined twice. */
  ghost predicate Shared(created: seq<Node>, waiting: seq<Node>, joined: seq<Node>) {
    && Distinct(created) && Distinct(joined)
    && Elements(created) == Elements(waiting) + Elements(joined)
    && Elements(waiting) !! Elements(joined)
  }

  lemma JoinMoves(created: seq<Node>, waiting: seq<Node>, joined: seq<Node>, k: nat)
    requires Shared(created, waiting, joined) && Distinct(waiting) && k < |waiting|
    ensures Shared(created, Dropping(waiting, k), joined + [waiting[k]])
  {
    var w, j := Dropping(waiting, k), joined + [waiting[k]];
    assert waiting[k] !in w;
    assert Elements(w) == Elements(waiting) - {waiting[k]} by {
      forall x | x in waiting && x != waiting[k] ensures x in w {
        var i :| 0 <= i < |waiting| && waiting[i] == x;
        assert i < k ==> w[i] == x;
        assert i > k ==> w[i - 1] == x;
      }
    }
    assert Elements(j) == Elements(joined) + {waiting[k]};
    assert waiting[k] in Elements(waiting);
  }

  lemma SnocDistinct(s: seq<Node>)
    requires Distinct(s) && s != []
    ensures var n := |s| - 1; Distinct(s[..n]) && s[n] !in s[..n] && s == s[..n] + [s[n]]
  {
  }

  lemma SelectSnoc(s: seq<Node>, seen: seq<bool>, flag: bool, x: Node)
    requires |seen| == |s| > 0
    ensures var n := |s| - 1;
            x in Select(s, seen, flag) <==> x in Select(s[..n], seen[..n], flag) || (x == s[n] && seen[n] == flag)
  {
  }

  lemma {:induction false} SelectMembers(s: seq<Node>, seen: seq<bool>, x: Node)
    requires Distinct(s) && |seen| == |s|
    ensures x in s <==> x in Select(s, seen, false) || x in Select(s, seen, true)
    ensures !(x in Select(s, seen, false) && x in Select(s, seen, true))
  {
    if s != [] {
      var n := |s| - 1;
      SnocDistinct(s);
      SelectMembers(s[..n], seen[..n], x);
      SelectSnoc(s, seen, false, x);
      SelectSnoc(s, seen, true, x);
    }
  }

  lemma {:induction false} SelectDistinct(s: seq<Node>, seen: seq<bool>, flag: bool)
    requires Distinct(s) && |seen| == |s|
    ensures Distinct(Select(s, seen, flag))
  {
    if s != [] {
      var n := |s| - 1;
      SnocDistinct(s);
      SelectDistinct(s[..n], seen[..n], flag);
      SelectMembers(s[..n], seen[..n], s[n]);
    }
  }

  /** A pass moves what it removed from the waiting threads to the joined ones. */
  lemma PassMoves(created: seq<Node>, waiting: seq<Node>, joined: seq<Node>, seen: seq<bool>)
    requires Shared(created, waiting, joined) && Distinct(waiting) && |seen| == |waiting|
    ensures Shared(created, Select(waiting, seen, false), joined + Select(waiting, seen, true))
  {
    var kept, gone := Select(waiting, seen, false), Select(waiting, seen, true);
    forall x ensures (x in waiting <==> x in kept || x in gone) && !(x in kept && x in gone) {
      SelectMembers(waiting, seen, x);
    }
    SelectDistinct(waiting, seen, true);
    assert Elements(joined + gone) == Elements(joined) + Elements(gone);
    assert Elements(waiting) == Elements(kept) + Elements(gone);
    forall i, j | 0 <= i < |joined| && 0 <= j < |gone| ensures joined[i] != gone[j] {
      assert gone[j] in Elements(waiting) && joined[i] in Elements(joined);
    }
  }

  lemma CreateAdds(created: seq<Node>, waiting: seq<Node>, joined: seq<Node>, x: Node)
    requires Shared(created, waiting, joined) && x !in created
    ensures Shared(created + [x], [x] + waiting, joined)
  {
    assert Elements(created + [x]) == Elements(created) + {x};
    assert Elements([x] + waiting) == {x} + Elements(waiting);
    assert x !in Elements(created);
  }

  /** What happens to one call of accept. */
  datatype Round = AcceptFailed | Connection(flips: seq<set<nat>>)

  /** How many of the rounds bring a connection. */
  function Connections(rounds: seq<Round>): nat {
    if rounds == [] then 0 else
    var n := |rounds| - 1;
    Connections(rounds[..n]) + if rounds[n].Connection? then 1 else 0
  }

  class Acceptor {
    const head: Head
    var created: seq<Node>
    ghost var waiting: seq<Node>
    ghost var joined: seq<Node>

    ghost predicate Valid()
      reads this, head, created, waiting
    {
      List(head, waiting) && Shared(created, waiting, joined)
    }

    ghost function Nodes(): set<Node>
      reads this
    {
      Elements(created)
    }

    constructor ()
      ensures Valid() && fresh(head) && created == waiting == joined == []
    {
      head := new Head();
      created, waiting, joined := [], [], [];
    }

    lemma WaitingWithin()
      requires Valid()
      ensures Within(waiting, Nodes())
    {
      forall i | 0 <= i < |waiting| ensures waiting[i] in created {
        assert waiting[i] in Elements(waiting);
        assert waiting[i] in Elements(created);
      }
    }

    /** The reaping part of the main loop. */
    method Reap(flips: seq<set<nat>>) returns (ghost seen: seq<bool>)
      requires Valid()
      modifies this`waiting, this`joined, head, created
      ensures Valid() && |seen| == |old(waiting)|
      ensures waiting == Select(old(waiting), seen, false)
      ensures joined == old(joined) + Select(old(waiting), seen, true)
      ensures forall i :: 0 <= i < |waiting| ==> waiting[i] !in old(Completed(waiting))
      ensures forall i :: |old(joined)| <= i < |joined| ==> joined[i].threadComplete
    {
      WaitingWithin();
      var gone;
      gone, seen := ReapList(head, created, flips, waiting, Nodes());
      PassMoves(created, waiting, joined, seen);
      waiting := Select(waiting, seen, false);
      joined := joined + gone;
    }

    /** pthread_join and SLIST_REMOVE of the first element. */
    method JoinAndRemove(elem: Node)
      requires Valid() && waiting != [] && waiting[0] == elem
      modifies this`waiting, this`joined, head, created`next
      ensures Valid()
      ensures waiting == old(waiting)[1..] && joined == old(joined) + [elem]
    {
      WaitingWithin();
      JoinMoves(created, waiting, joined, 0);
      assert Dropping(waiting, 0) == waiting[1..];
      Remove(head, elem, waiting, 0, Nodes());
      waiting := waiting[1..];
      joined := joined + [elem];
    }

    /** list_cleanup: joins every thread still in the list, complete or not. */
    method Cleanup()
      requires Valid()
      modifies this`waiting, this`joined, head, created`next
      ensures Valid() && waiting == [] && joined == old(joined) + old(waiting)
    {
      ghost var s, n := waiting, 0;
      var elem := head.first;
      while elem != null
        invariant n <= |s| && Valid()
        invariant waiting == s[n..] && joined == old(joined) + s[..n]
        invariant elem == Place(waiting, 0)
        decreases |s| - n
      {
        var tdatap := elem.next;
        assert waiting[1..] == s[n + 1..];
        assert s[..n + 1] == s[..n] + [elem];
        JoinAndRemove(elem);
        n := n + 1;
        elem := tdatap;
      }
    }

    /** One connection: create the thread's record, start it, insert it, then reap. */
    method Accept(flips: seq<set<nat>>) returns (datap: Node, ghost seen: seq<bool>)
      requires Valid()
      modifies this, head, created
      ensures Valid() && fresh(datap) && created == old(created) + [datap]
      ensures |seen| == |old(waiting)| + 1
      ensures waiting == Select([datap] + old(waiting), seen, false)
      ensures joined == old(joined) + Select([datap] + old(waiting), seen, true)
      ensures forall i :: 0 <= i < |waiting| ==> waiting[i] !in old(Completed(waiting))
      ensures forall i :: |old(joined)| <= i < |joined| ==> joined[i].threadComplete
    {
      datap := new Node();
      WaitingWithin();
      CreateAdds(created, waiting, joined, datap);
      InsertHead(head, datap, waiting);
      waiting := [datap] + waiting;
      created := created + [datap];
      assert old(Completed(waiting)) <= Completed(waiting);
      seen := Reap(flips);
    }
  }

  /** The rounds that brought a connection, in order: one for each created thread. */
  ghost predicate Origins(rounds: seq<Round>, origin: seq<nat>, created: seq<Node>) {
    && |origin| == |created|
    && (forall i, j :: 0 <= i < j < |origin| ==> origin[i] < origin[j])
    && forall i :: i in origin <==> 0 <= i < |rounds| && rounds[i].Connection?
  }

  lemma OriginsFailed(rounds: seq<Round>, origin: seq<nat>, created: seq<Node>)
    requires rounds != [] && rounds[|rounds| - 1].AcceptFailed?
    requires Origins(rounds[..|rounds| - 1], origin, created)
    ensures Origins(rounds, origin, created)
  {
  }

  lemma OriginsConnected(rounds: seq<Round>, origin: seq<nat>, created: seq<Node>, x: Node)
    requires rounds != [] && rounds[|rounds| - 1].Connection?
    requires Origins(rounds[..|rounds| - 1], origin, created)
    ensures Origins(rounds, origin + [|rounds| - 1], created + [x])
  {
    var n, origin' := |rounds| - 1, origin + [|rounds| - 1];
    forall i | 0 <= i < |origin| ensures origin[i] < n {
      assert origin[i] in origin;
    }
    forall i ensures i in origin' <==> 0 <= i < |rounds| && rounds[i].Connection? {
      assert i in origin' <==> i in origin || i == n;
    }
  }

  /**
   The main loop until a signal: whatever the clients do and whenever threads complete, there is one
   thread for each accepted connection, in order, and in the end every one has been joined, exactly once,
   and the list is empty.
   */
  method MainLoop(rounds: seq<Round>) returns (server: Acceptor, ghost origin: seq<nat>)
    ensures server.Valid() && server.waiting == [] && server.head.first == null
    ensures Elements(server.joined) == Elements(server.created) && Distinct(server.joined)
    ensures Origins(rounds, origin, server.created)
    ensures |server.created| == Connections(rounds)
  {
    server := new Acceptor();
    origin := [];
    for i := 0 to |rounds|
      invariant server.Valid() && |server.created| == Connections(rounds[..i])
      invariant fresh(server) && fresh(server.head)
      invariant forall k :: 0 <= k < |server.created| ==> fresh(server.created[k])
      invariant Origins(rounds[..i], origin, server.created)
    {
      ghost var created := server.created;
      assert rounds[..i + 1][..i] == rounds[..i];
      match rounds[i] {
        case AcceptFailed =>
          OriginsFailed(rounds[..i + 1], origin, created);
        case Connection(flips) =>
          var datap, _ := server.Accept(flips);
          OriginsConnected(rounds[..i + 1], origin, created, datap);
          origin := origin + [i];
      }
    }
    assert rounds[..|rounds|] == rounds;
    server.Cleanup();
  }
}
