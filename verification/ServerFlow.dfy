/**
 How a connection proceeds: the order of its steps, what it reads back, and which threads report that
 they are done.
 */
module ServerFlow {
  import opened CircularBuffer
  import opened Kernel
  import opened DeviceSpec
  import opened Ownership
  import opened Commits
  import opened Draining
  import opened Reading
  import opened Seeking
  import opened Server
  import opened ServerTrace

  // ----- The order of the steps

  function Stage(pc: Pc): nat {
    match pc
    case AllocateBuffer => 0
    case OpenTest => 1
    case OpenReset(_) => 2
    case Receive => 3
    case WriteLock(_) => 4
    case AppendTest(_) => 5
    case AppendReset(_, _) => 6
    case Append(_, _) => 7
    case WriteUnlock => 8
    case ReadLock => 9
    case SizeSeek => 10
    case Rewind(_) => 11
    case AllocateFile(_) => 12
    case ReadFetch(_) => 13
    case ReadCopy(_, _) => 14
    case Send => 15
    case ReadUnlock(_) => 16
    case Close => 17
    case Returned => 18
  }

  /** The steps that a failure, or the end of the connection, leaves out. */
  predicate LeavesOut(from: nat, to: nat) {
    || (from <= 1 && to == 18)      // no buffer, or no open
    || (from == 3 && to == 17)      // nothing more to receive
    || (from == 5 && to == 8)       // no open for the append
    || (from == 12 && to == 16)     // no memory for the file
    || (from == 14 && to == 16)     // not the number of bytes asked for
    || (from == 16 && to == 18)     // given up
  }

  /** The calls at which a thread may have to wait, to try again, or to do the same again. */
  predicate MayStay(g: Shared, th: Thread, c: Choice) {
    match th.pc
    case Receive => c.Received? && !IsMessage(c.bytes)
    case WriteLock(_) => g.owner.Some?
    case ReadLock => g.owner.Some?
    case Append(rest, failed) => rest != [] && !(c.Fails? && failed)
    case Returned => true
    case _ => false
  }

  lemma ActStays(g: Shared, t: nat, th: Thread, c: Choice)
    requires Shape(g.dev.bufferP)
    ensures Stage(Act(g, t, th, c).1.pc) == Stage(th.pc) <==> MayStay(g, th, c)
  {
    if th.pc.Receive? && c.Received? {
      SeekPrefixIff(c.bytes);
    }
  }

  /** A step goes on to the next stage, leaves some out for a reason, or stays for a reason. */
  lemma ActProceeds(g: Shared, t: nat, th: Thread, c: Choice)
    requires Shape(g.dev.bufferP)
    ensures var from, to := Stage(th.pc), Stage(Act(g, t, th, c).1.pc);
            && (to == from <==> MayStay(g, th, c))
            && (to == from || to == from + 1 || LeavesOut(from, to))
  {
    ActStays(g, t, th, c);
  }

  lemma StepProceeds(s: State, e: Event, t: nat)
    requires Shape(s.shared.dev.bufferP) && t in s.threads
    ensures t in Step(s, e).threads
    ensures var from, to := Stage(s.threads[t].pc), Stage(Step(s, e).threads[t].pc);
            to == from || to == from + 1 || LeavesOut(from, to)
  {
    if e.Go? && e.t == t {
      StepOfThread(s, t, e.c);
      ActProceeds(s.shared, t, s.threads[t], e.c);
    } else {
      StepOfOther(s, e, t);
    }
  }

  /** A connection begins at most one message. */
  lemma OneMessageEach(events: seq<Event>, e: nat, e': nat, t: nat)
    requires Begins(events, e, t) && Begins(events, e', t)
    ensures e == e'
  {
    if e < e' {
      BeginsOnce(events, e, e', t);
    } else if e' < e {
      BeginsOnce(events, e', e, t);
    }
  }

  lemma BeginsOnce(events: seq<Event>, e: nat, e': nat, t: nat)
    requires e < e' && Begins(events, e, t)
    ensures !Begins(events, e', t)
  {
    if e' < |events| && StepOf(events, e', t) {
      var s := Before(events, e);
      assert events[..e + 1][..e] == events[..e] && events[..e + 1][e] == events[e];
      StepOfThread(s, t, events[e].c);
      ActProceeds(s.shared, t, s.threads[t], events[e].c);
      LaterStage(events, e + 1, e', t);
    }
  }

  lemma NextStage(before: seq<Event>, e: Event, t: nat)
    requires t in RunServer(before).threads
    ensures t in RunServer(before + [e]).threads
    ensures Stage(RunServer(before).threads[t].pc) <= Stage(RunServer(before + [e]).threads[t].pc)
  {
    ServerSnoc(before, e);
    StepProceeds(RunServer(before), e, t);
  }

  /** Over every run a thread's stages only grow. */
  lemma {:induction false} LaterStage(events: seq<Event>, i: nat, j: nat, t: nat)
    requires i <= j <= |events| && t in RunServer(events[..i]).threads
    ensures t in RunServer(events[..j]).threads
    ensures Stage(RunServer(events[..i]).threads[t].pc) <= Stage(RunServer(events[..j]).threads[t].pc)
    decreases j
  {
    if i < j {
      LaterStage(events, i, j - 1, t);
      assert events[..j] == events[..j - 1] + [events[j - 1]];
      NextStage(events[..j - 1], events[j - 1], t);
    }
  }

  /** With event e thread t takes stage k. */
  predicate Takes(events: seq<Event>, e: nat, t: nat, k: nat) {
    StepOf(events, e, t) && Stage(PcAt(events, e, t)) == k
  }

  lemma StepTakes(s: State, e: Event, t: nat, k: nat)
    requires Shape(s.shared.dev.bufferP) && t in s.threads && t in Step(s, e).threads && 8 <= k <= 12
    requires 4 <= Stage(s.threads[t].pc) <= k < Stage(Step(s, e).threads[t].pc)
    ensures e.Go? && e.t == t && Stage(s.threads[t].pc) == k
  {
    StepProceeds(s, e, t);
    if !(e.Go? && e.t == t) {
      StepOfOther(s, e, t);
    }
  }

  /** The stage of thread t after j events. */
  function StageAfter(events: seq<Event>, j: nat, t: nat): int
    requires j <= |events|
  {
    if t in RunServer(events[..j]).threads then Stage(RunServer(events[..j]).threads[t].pc) else 0
  }

  /** The stages of thread t after i events, and on to n. */
  function StagesFrom(events: seq<Event>, i: nat, n: nat, t: nat): (s: seq<int>)
    requires i <= n <= |events|
    ensures |s| == n + 1 - i && forall j :: 0 <= j < |s| ==> s[j] == StageAfter(events, i + j, t)
  {
    seq(n + 1 - i, j requires 0 <= j < n + 1 - i => StageAfter(events, i + j, t))
  }

  /** In a sequence that starts at or below k and ends above it, there is a place where it passes k. */
  lemma {:induction false} PlaceOf(s: seq<int>, k: nat) returns (e: nat)
    requires s != [] && s[0] <= k < s[|s| - 1]
    ensures e < |s| - 1 && s[e] <= k < s[e + 1]
  {
    if k < s[|s| - 2] {
      e := PlaceOf(s[..|s| - 1], k);
    } else {
      e := |s| - 2;
    }
  }

  lemma PassesStage(events: seq<Event>, i: nat, n: nat, t: nat, k: nat) returns (e: nat)
    requires i <= n <= |events| && StageAfter(events, i, t) <= k < StageAfter(events, n, t)
    ensures i <= e < n && StageAfter(events, e, t) <= k < StageAfter(events, e + 1, t)
  {
    e := PlaceOf(StagesFrom(events, i, n, t), k);
    e := i + e;
  }

  lemma PrefixStep(events: seq<Event>, e: nat)
    requires e < |events|
    ensures RunServer(events[..e + 1]) == Step(RunServer(events[..e]), events[e])
  {
    assert events[..e + 1] == events[..e] + [events[e]];
    ServerSnoc(events[..e], events[e]);
  }

  lemma LaterStageAfter(events: seq<Event>, i: nat, j: nat, t: nat)
    requires i <= j <= |events| && t in RunServer(events[..i]).threads
    ensures t in RunServer(events[..j]).threads && StageAfter(events, i, t) <= StageAfter(events, j, t)
  {
    LaterStage(events, i, j, t);
  }

  lemma TakesAt(events: seq<Event>, i: nat, e: nat, t: nat, k: nat)
    requires i <= e < |events| && t in RunServer(events[..i]).threads && 8 <= k <= 12
    requires 4 <= StageAfter(events, i, t) && StageAfter(events, e, t) <= k < StageAfter(events, e + 1, t)
    ensures Takes(events, e, t, k)
  {
    LaterStageAfter(events, i, e, t);
    LaterStageAfter(events, i, e + 1, t);
    PrefixStep(events, e);
    StepTakes(RunServer(events[..e]), events[e], t, k);
  }

  /** From receiving a message on, no thread leaves out these stages: append's end, locking again and asking for the size. */
  lemma NotLeftOut(events: seq<Event>, i: nat, n: nat, t: nat, k: nat) returns (e: nat)
    requires i <= n <= |events| && t in RunServer(events[..i]).threads && 8 <= k <= 12
    requires 4 <= StageAfter(events, i, t) <= k < StageAfter(events, n, t)
    ensures i <= e < n && Takes(events, e, t, k)
  {
    e := PassesStage(events, i, n, t, k);
    TakesAt(events, i, e, t, k);
  }

  lemma ActStartsMessage(g: Shared, t: nat, th: Thread, c: Choice)
    requires Shape(g.dev.bufferP) && th.pc.Receive? && c.Received? && IsMessage(c.bytes)
    ensures Stage(Act(g, t, th, c).1.pc) == 4
  {
    ActCarries(g, t, th, c);
    ActProceeds(g, t, th, c);
  }

  lemma ReceiptStage(events: seq<Event>, e: nat, t: nat)
    requires ReceivesMessage(events, e, t)
    ensures t in RunServer(events[..e + 1]).threads && Stage(RunServer(events[..e + 1]).threads[t].pc) == 4
  {
    var s := Before(events, e);
    assert events[..e + 1] == events[..e] + [events[e]];
    ServerSnoc(events[..e], events[e]);
    StepOfThread(s, t, events[e].c);
    ActStartsMessage(s.shared, t, s.threads[t], events[e].c);
  }

  /**
   A thread that received a message and has returned, after n events of a run, has locked again and asked
   for the size in between, whatever failed.
   */
  lemma MessageIsReadBack(events: seq<Event>, r: nat, n: nat, t: nat, k: nat) returns (e: nat)
    requires ReceivesMessage(events, r, t) && r < n <= |events| && 8 <= k <= 12
    requires t in RunServer(events[..n]).threads && RunServer(events[..n]).threads[t].pc.Returned?
    ensures r < e < n && Takes(events, e, t, k)
  {
    ReceiptStage(events, r, t);
    e := NotLeftOut(events, r + 1, n, t, k);
  }

  // ----- Which threads report completion

  /** The step gives up reading back: no memory, not the number of bytes asked for, or no send. */
  predicate StopsReadingBack(g: Shared, th: Thread, c: Choice)
    requires Shape(g.dev.bufferP)
  {
    match th.pc
    case AllocateFile(size) => c.Fails? || size < 0
    case ReadCopy(size, entrySize) => ReadLocked(g.dev, th.fPos, size, entrySize, !c.Fails?).retval != size
    case Send => c.Fails?
    case _ => false
  }

  /** With event e thread t gives up reading back. */
  predicate GivesUp(events: seq<Event>, e: nat, t: nat) {
    StepOf(events, e, t) && StopsReadingBack(Before(events, e).shared, Before(events, e).threads[t], events[e].c)
  }

  /** The thread is on its way to return, or has returned, without reporting completion. */
  predicate Silent(th: Thread) {
    th.pc == ReadUnlock(false) || (th.pc.Returned? && !th.complete)
  }

  lemma ActSilent(g: Shared, t: nat, th: Thread, c: Choice)
    requires Shape(g.dev.bufferP) && (th.complete ==> th.pc.Returned?)
    ensures Silent(Act(g, t, th, c).1) <==> StopsReadingBack(g, th, c) || Silent(th)
  {
  }

  lemma StepSilent(s: State, e: Event, t: nat)
    requires Shape(s.shared.dev.bufferP) && CompleteInv(s) && t in Step(s, e).threads
    ensures Silent(Step(s, e).threads[t]) <==>
            t in s.threads &&
            (Silent(s.threads[t]) || (e.Go? && e.t == t && StopsReadingBack(s.shared, s.threads[t], e.c)))
  {
    if e.Go? && e.t == t {
      if t in s.threads {
        StepOfThread(s, t, e.c);
        ActSilent(s.shared, t, s.threads[t], e.c);
      }
    } else {
      StepOfOther(s, e, t);
    }
  }

  lemma GivesUpLast(events: seq<Event>, t: nat)
    requires events != []
    ensures var e, s := events[|events| - 1], RunServer(events[..|events| - 1]);
            GivesUp(events, |events| - 1, t) <==>
            e.Go? && e.t == t && t in s.threads && StopsReadingBack(s.shared, s.threads[t], e.c)
  {
  }

  lemma SilentStep(events: seq<Event>, s: State, t: nat)
    requires events != [] && s == RunServer(events[..|events| - 1]) && CompleteInv(s)
    requires t in Step(s, events[|events| - 1]).threads
    ensures Silent(Step(s, events[|events| - 1]).threads[t]) <==>
            GivesUp(events, |events| - 1, t) || (t in s.threads && Silent(s.threads[t]))
  {
    GivesUpLast(events, t);
    StepSilent(s, events[|events| - 1], t);
  }

  lemma SameGivingUp(events: seq<Event>)
    requires events != []
    ensures forall e: nat, t: nat :: e < |events| - 1 ==>
              (GivesUp(events, e, t) <==> GivesUp(events[..|events| - 1], e, t))
  {
    forall e | 0 <= e < |events| - 1
      ensures Before(events, e) == Before(events[..|events| - 1], e) && events[..|events| - 1][e] == events[e]
    {
      SameBefore(events, e);
    }
  }

  lemma {:induction false} SilentIff(events: seq<Event>, t: nat)
    requires t in RunServer(events).threads
    ensures Silent(RunServer(events).threads[t]) <==> exists e: nat :: GivesUp(events, e, t)
  {
    if events != [] {
      var n := |events| - 1;
      var s := RunServer(events[..n]);
      RunComplete(events[..n]);
      SilentStep(events, s, t);
      SameGivingUp(events);
      if t in s.threads {
        SilentIff(events[..n], t);
        if Silent(s.threads[t]) {
          var e: nat :| GivesUp(events[..n], e, t);
          assert GivesUp(events, e, t);
        }
      } else {
        NeverStepped(events[..n], t);
      }
    }
  }

  lemma {:induction false} NeverStepped(events: seq<Event>, t: nat)
    requires t !in RunServer(events).threads
    ensures forall e: nat :: !StepOf(events, e, t)
  {
    if events != [] {
      var n := |events| - 1;
      assert t !in RunServer(events[..n]).threads;
      NeverStepped(events[..n], t);
      forall e: nat | e < n ensures !StepOf(events, e, t) {
        SameBefore(events, e);
        assert !StepOf(events[..n], e, t);
      }
    }
  }

  /** A returned thread has reported completion unless it gave up while reading back: then it never is joined early. */
  lemma ReturnedSilentIff(events: seq<Event>, t: nat)
    requires t in RunServer(events).threads && RunServer(events).threads[t].pc.Returned?
    ensures !RunServer(events).threads[t].complete <==> exists e: nat :: GivesUp(events, e, t)
  {
    SilentIff(events, t);
  }

  // ----- Open is two steps

  lemma {:induction false} WaitsMeanwhile(events: seq<Event>, more: seq<Event>, t: nat)
    requires t in RunServer(events).threads && forall i :: 0 <= i < |more| ==> !(more[i].Go? && more[i].t == t)
    ensures t in RunServer(events + more).threads
    ensures RunServer(events + more).threads[t] == RunServer(events).threads[t]
  {
    if more == [] {
      assert events + more == events;
    } else {
      var n := |more| - 1;
      WaitsMeanwhile(events, more[..n], t);
      assert events + more == (events + more[..n]) + [more[n]];
      ServerSnoc(events + more[..n], more[n]);
      StepOfOther(RunServer(events + more[..n]), more[n], t);
    }
  }

  predicate Tests(pc: Pc) { pc.OpenTest? || pc.AppendTest? }

  predicate Resets(pc: Pc, wasFull: bool) {
    (pc.OpenReset? || pc.AppendReset?) && pc.wasFull == wasFull
  }

  lemma ActTests(g: Shared, t: nat, th: Thread, c: Choice)
    requires Shape(g.dev.bufferP) && Tests(th.pc) && !c.Fails?
    ensures var (g', th') := Act(g, t, th, c);
            && g' == g && Resets(th'.pc, g.dev.bufferP.full) && th'.complete == th.complete
            && (th.pc.OpenTest? <==> th'.pc.OpenReset?)
  {
  }

  lemma ActResets(g: Shared, t: nat, th: Thread, c: Choice, wasFull: bool)
    requires Shape(g.dev.bufferP) && Resets(th.pc, wasFull)
    ensures Act(g, t, th, c).0.dev == if wasFull then g.dev else g.dev.(bufferP := g.dev.bufferP.(outOffs := 0))
    ensures th.pc.OpenReset? ==> Act(g, t, th, c).1 == Thread(Receive, 0, th.complete)
  {
  }

  /**
   Whatever others do between the two steps of an open, it moves the cursor exactly if the ring was not
   full at the first: then to 0, and nothing else; otherwise a reader in the middle of a drain stays there.
   */
  lemma OpenActsOnTest(events: seq<Event>, t: nat, c: Choice, more: seq<Event>, c': Choice)
    requires var s := RunServer(events); t in s.threads && !c.Fails? && Tests(s.threads[t].pc)
    requires forall i :: 0 <= i < |more| ==> !(more[i].Go? && more[i].t == t)
    ensures var s := RunServer(events); var tested := events + [Go(t, c)];
            var d, d' := RunServer(tested + more).shared.dev, RunServer(tested + more + [Go(t, c')]).shared.dev;
            && RunServer(tested).shared == s.shared
            && t in RunServer(tested + more + [Go(t, c')]).threads
            && (s.threads[t].pc.OpenTest? ==>
                  RunServer(tested + more + [Go(t, c')]).threads[t] == Thread(Receive, 0, s.threads[t].complete))
            && d' == if s.shared.dev.bufferP.full then d else d.(bufferP := d.bufferP.(outOffs := 0))
  {
    var s, tested := RunServer(events), events + [Go(t, c)];
    ServerSnoc(events, Go(t, c));
    StepOfThread(s, t, c);
    ActTests(s.shared, t, s.threads[t], c);
    WaitsMeanwhile(tested, more, t);
    var s' := RunServer(tested + more);
    ServerSnoc(tested + more, Go(t, c'));
    StepOfThread(s', t, c');
    ActResets(s'.shared, t, s'.threads[t], c', s.shared.dev.bufferP.full);
  }

  // ----- How much is read back

  /** With event e thread t finds out how much to read: where the cursor is, if that many bytes are stored. */
  predicate AsksFor(events: seq<Event>, e: nat, t: nat, size: int) {
    && StepOf(events, e, t) && PcAt(events, e, t).SizeSeek?
    && var d := Before(events, e).shared.dev;
       size == if d.bufferP.outOffs <= |Concat(Stored(d))| then d.bufferP.outOffs else EINVAL
  }

  /** With event e thread t fetches the size of the entry at the cursor. */
  predicate Fetches(events: seq<Event>, e: nat, t: nat, size: nat) {
    && StepOf(events, e, t) && PcAt(events, e, t).ReadFetch?
    && size == |CurrentEntry(Before(events, e).shared.dev)|
  }

  /** The size that a thread reading back has in hand. */
  function AskedSize(pc: Pc): Option<int> {
    match pc
    case Rewind(size) => Some(size)
    case AllocateFile(size) => Some(size)
    case ReadFetch(size) => Some(size)
    case ReadCopy(size, _) => Some(size)
    case _ => None
  }

  /** It has the size at which the cursor stood, and once it has rewound it reads from position 0. */
  ghost predicate ReadsBack(events: seq<Event>, th: Thread, t: nat) {
    && (AskedSize(th.pc).Some? ==> exists e: nat :: AsksFor(events, e, t, AskedSize(th.pc).value))
    && (AskedSize(th.pc).Some? && !th.pc.Rewind? ==> th.fPos == 0)
    && (th.pc.ReadCopy? ==> exists e: nat :: Fetches(events, e, t, th.pc.entrySize))
  }

  lemma SameAsking(events: seq<Event>)
    requires events != []
    ensures forall e: nat, t: nat, size :: AsksFor(events[..|events| - 1], e, t, size) ==> AsksFor(events, e, t, size)
    ensures forall e: nat, t: nat, size :: Fetches(events[..|events| - 1], e, t, size) ==> Fetches(events, e, t, size)
  {
    forall e | 0 <= e < |events| - 1
      ensures Before(events, e) == Before(events[..|events| - 1], e) && events[..|events| - 1][e] == events[e]
    {
      SameBefore(events, e);
    }
  }

  /** The size in a thread's state comes from the cursor, or from its previous state. */
  lemma ActAsks(g: Shared, t: nat, th: Thread, c: Choice)
    requires Owned(g.dev)
    ensures var th' := Act(g, t, th, c).1;
            && (AskedSize(th'.pc).Some? ==>
                  if th.pc.SizeSeek? then
                    AskedSize(th'.pc).value ==
                    if g.dev.bufferP.outOffs <= |Concat(Stored(g.dev))| then g.dev.bufferP.outOffs else EINVAL
                  else AskedSize(th.pc) == AskedSize(th'.pc))
            && (AskedSize(th'.pc).Some? && !th'.pc.Rewind? ==> th'.fPos == 0 || (!th.pc.Rewind? && th'.fPos == th.fPos))
            && (th.pc.SizeSeek? ==> th'.pc.Rewind?)
  {
    LlseekCountsFrom(g.dev, th.fPos, 0);
  }

  lemma ActFetches(g: Shared, t: nat, th: Thread, c: Choice)
    requires Owned(g.dev)
    ensures var th' := Act(g, t, th, c).1;
            th'.pc.ReadCopy? ==> th.pc.ReadFetch? && th'.pc.entrySize == |CurrentEntry(g.dev)|
  {
    assert Denotes(g.dev.heap, g.dev.bufferP.slot[g.dev.bufferP.outOffs]);
  }

  lemma StillReadsBack(events: seq<Event>, th: Thread, t: nat)
    requires events != [] && ReadsBack(events[..|events| - 1], th, t)
    ensures ReadsBack(events, th, t)
  {
    SameAsking(events);
    if AskedSize(th.pc).Some? {
      var e: nat :| AsksFor(events[..|events| - 1], e, t, AskedSize(th.pc).value);
      assert AsksFor(events, e, t, AskedSize(th.pc).value);
    }
    if th.pc.ReadCopy? {
      var e: nat :| Fetches(events[..|events| - 1], e, t, th.pc.entrySize);
      assert Fetches(events, e, t, th.pc.entrySize);
    }
  }

  lemma OwnStepReadsBack(events: seq<Event>, s: State, t: nat)
    requires events != [] && s == RunServer(events[..|events| - 1]) && t in s.threads
    requires events[|events| - 1].Go? && events[|events| - 1].t == t
    requires Owned(s.shared.dev) && ReadsBack(events[..|events| - 1], s.threads[t], t)
    ensures ReadsBack(events, Act(s.shared, t, s.threads[t], events[|events| - 1].c).1, t)
  {
    var c := events[|events| - 1].c;
    var th, th' := s.threads[t], Act(s.shared, t, s.threads[t], c).1;
    ActAsks(s.shared, t, th, c);
    StillReadsBack(events, th, t);
    ActFetches(s.shared, t, th, c);
    if AskedSize(th'.pc).Some? && th.pc.SizeSeek? {
      assert AsksFor(events, |events| - 1, t, AskedSize(th'.pc).value);
    }
    if th'.pc.ReadCopy? {
      assert Fetches(events, |events| - 1, t, th'.pc.entrySize);
    }
  }

  lemma StepReadsBack(events: seq<Event>, s: State, t: nat)
    requires events != [] && s == RunServer(events[..|events| - 1])
    requires Owned(s.shared.dev) && t in Step(s, events[|events| - 1]).threads
    requires t in s.threads ==> ReadsBack(events[..|events| - 1], s.threads[t], t)
    ensures ReadsBack(events, Step(s, events[|events| - 1]).threads[t], t)
  {
    var e := events[|events| - 1];
    if t in s.threads && e.Go? && e.t == t {
      OwnStepReadsBack(events, s, t);
      StepOfThread(s, t, e.c);
    } else if t in s.threads {
      StepOfOther(s, e, t);
      StillReadsBack(events, s.threads[t], t);
    } else {
      assert Step(s, e).threads[t].pc == AllocateBuffer;
    }
  }

  /**
   In every interleaving a thread reads back, from position 0, as many bytes as the number of the slot at
   which the cursor stood when it asked for the size.
   */
  lemma {:induction false} ReadBackSize(events: seq<Event>, t: nat)
    requires t in RunServer(events).threads
    ensures ReadsBack(events, RunServer(events).threads[t], t)
  {
    if events != [] {
      var n := |events| - 1;
      if t in RunServer(events[..n]).threads {
        ReadBackSize(events[..n], t);
      }
      RunInv(events[..n]);
      StepReadsBack(events, RunServer(events[..n]), t);
    }
  }

  /**
   The read back is a read of the device from position 0 with the size fetched before. It goes on to send
   exactly if that gives the number of bytes asked for.
   */
  lemma ReadBackOutcome(g: Shared, t: nat, th: Thread, c: Choice)
    requires Owned(g.dev) && th.pc.ReadCopy? && th.fPos == 0
    ensures var (g', th') := Act(g, t, th, c); var size, entrySize := th.pc.count, th.pc.entrySize;
            var nothing := entrySize == 0 || g.dev.readCounter == 10;
            && g' == g.(dev := g'.dev)
            && (nothing ==>
                  && Leaves(g.dev, g'.dev, g.dev.bufferP.outOffs, if entrySize == 0 then g.dev.readCounter else 0)
                  && th'.pc == if size == 0 then Send else ReadUnlock(false))
            && (!nothing && c.Fails? ==> g'.dev == g.dev && th'.pc == ReadUnlock(false))
            && (!nothing && !c.Fails? ==>
                  && Leaves(g.dev, g'.dev,
                            if size > entrySize then (g.dev.bufferP.outOffs + 1) % 10 else g.dev.bufferP.outOffs,
                            g.dev.readCounter + 1)
                  && th'.pc == (if size <= entrySize then Send else ReadUnlock(false))
                  && th'.fPos == if size > entrySize then 0 else size)
  {
    if th.pc.entrySize > 0 && g.dev.readCounter != 10 {
      ReadUsesFetchedSize(g.dev, 0, th.pc.count, th.pc.entrySize);
    }
  }
}
