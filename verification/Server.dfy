/**
 The socket server of aesdsocket.c as any number of connection threads interleaved over one device.

 Each thread follows `handle_connection` and `write_to_file`; a step is one action on shared state.
 What the network, the allocators and the C library decide arrives as a `Choice`, so a run of the
 server is any sequence of events. `aesd_open` takes no lock, so it is two steps, the test of `full`
 and the reset of the cursor; `aesd_read` fetches the entry size before it locks, so it is two steps.
 */
module Server {
  import opened CircularBuffer
  import opened Kernel
  import opened DeviceSpec
  import opened Ownership
  import opened LineHistory
  import opened Commits

  const BUFFSIZE: nat := 10 * 1024

  /** "AESDCHAR_IOCSEEKTO:" */
  const SEEK_PREFIX: seq<byte> := [65, 69, 83, 68, 67, 72, 65, 82, 95, 73, 79, 67, 83, 69, 69, 75, 84, 79, 58]

  /** What a C string function sees of a buffer: the bytes before the first NUL. */
  function UpToNul(bytes: seq<byte>): seq<byte> {
    if bytes == [] || bytes[0] == 0 then [] else [bytes[0]] + UpToNul(bytes[1..])
  }

  datatype Pc =
    | AllocateBuffer
    | OpenTest
    | OpenReset(wasFull: bool)
    | Receive
    | WriteLock(text: seq<byte>)
    | AppendTest(text: seq<byte>)
    | AppendReset(text: seq<byte>, wasFull: bool)
    | Append(rest: seq<byte>, failed: bool)
    | WriteUnlock
    | ReadLock
    | SizeSeek
    | Rewind(fileSize: int)
    | AllocateFile(fileSize: int)
    | ReadFetch(count: nat)
    | ReadCopy(count: nat, entrySize: nat)
    | Send
    | ReadUnlock(sent: bool)
    | Close
    | Returned

  datatype Thread = Thread(pc: Pc, fPos: nat, complete: bool)

  /** The outcome of a call the server cannot control. */
  datatype Choice =
    | Fails
    | Succeeds
    | Received(bytes: seq<byte>, args: Option<(nat, nat)>)
    | Flushed(n: nat)

  /**
   What the threads share. `journal` is the history of commits, `messages` the texts whose append has
   begun, in that order, and `abandoned` whether some append met an error.
   */
  datatype Shared = Shared(
    owner: Option<nat>, dev: Dev, journal: Journal, messages: seq<seq<byte>>, abandoned: bool)

  datatype State = State(threads: map<nat, Thread>, shared: Shared)

  datatype Event = Accept(t: nat) | Go(t: nat, c: Choice)

  const INITIAL_STATE := State(map[], Shared(None, INITIAL_DEV, Journal([], []), [], false))

  function Reset(g: Shared, wasFull: bool): Shared {
    if wasFull then g else g.(dev := ResetCursor(g.dev))
  }

  /** handle_connection between receiving a buffer and acting on it. */
  function Dispatch(g: Shared, th: Thread, bytes: seq<byte>, args: Option<(nat, nat)>): Thread {
    if !(0 < |bytes| < BUFFSIZE) then th
    else if SEEK_PREFIX <= bytes then
      match args
      case Some((cmd, offset)) =>
        if Accepted(g.dev.bufferP.slot, cmd, offset)
        then th.(fPos := SeekPosition(g.dev.bufferP.slot, cmd, offset)) else th
      case None => th
    else if bytes[|bytes| - 1] == NEWLINE then th.(pc := WriteLock(UpToNul(bytes)))
    else th
  }

  /** One step of thread `t`. A thread that waits for the mutex, or has returned, does nothing. */
  function Act(g: Shared, t: nat, th: Thread, c: Choice): (Shared, Thread)
    requires Shape(g.dev.bufferP)
  {
    match th.pc
    case AllocateBuffer =>
      (g, if c.Fails? then Thread(Returned, th.fPos, true) else th.(pc := OpenTest))
    case OpenTest =>
      (g, if c.Fails? then Thread(Returned, th.fPos, true) else th.(pc := OpenReset(g.dev.bufferP.full)))
    case OpenReset(wasFull) => (Reset(g, wasFull), Thread(Receive, 0, th.complete))
    case Receive =>
      (g, match c
        case Received(bytes, args) => Dispatch(g, th, bytes, args)
        case _ => th.(pc := Close))
    case WriteLock(text) =>
      if g.owner.None? then (g.(owner := Some(t)), th.(pc := AppendTest(text))) else (g, th)
    case AppendTest(text) =>
      (g, th.(pc := if c.Fails? then WriteUnlock else AppendReset(text, g.dev.bufferP.full)))
    case AppendReset(text, wasFull) =>
      (Reset(g, wasFull).(messages := g.messages + [text]), th.(pc := Append(text, false)))
    case Append(rest, failed) =>
      if rest == [] then (g, th.(pc := WriteUnlock))
      else (match c
        // after a failed fputs, fclose may still flush some of the rest
        case Fails => (g.(abandoned := true), th.(pc := if failed then WriteUnlock else Append(rest, true)))
        case Flushed(n) =>
          if 0 < n <= |rest| then
            (g.(dev := Write(g.dev, rest[..n], Copied), journal := Feed(g.journal, rest[..n])),
             th.(pc := Append(rest[n..], failed)))
          else (g, th)
        case _ => (g, th))
    case WriteUnlock => (g.(owner := None), th.(pc := ReadLock))
    case ReadLock =>
      if g.owner.None? then (g.(owner := Some(t)), th.(pc := SizeSeek)) else (g, th)
    case SizeSeek =>
      var size := Llseek(g.dev, th.fPos, 0, SeekEnd);
      (g, Thread(Rewind(size), if size >= 0 then size else th.fPos, th.complete))
    case Rewind(size) =>
      var pos := Llseek(g.dev, th.fPos, 0, SeekSet);
      (g, Thread(AllocateFile(size), if pos >= 0 then pos else th.fPos, th.complete))
    case AllocateFile(size) =>
      (g, th.(pc := if c.Fails? || size < 0 then ReadUnlock(false) else ReadFetch(size)))
    case ReadFetch(size) => (g, th.(pc := ReadCopy(size, CurrentSize(g.dev))))
    case ReadCopy(size, entrySize) =>
      var r := ReadLocked(g.dev, th.fPos, size, entrySize, !c.Fails?);
      (g.(dev := r.dev), Thread(if r.retval == size then Send else ReadUnlock(false), r.fPos, th.complete))
    case Send => (g, th.(pc := ReadUnlock(!c.Fails?)))
    case ReadUnlock(sent) => (g.(owner := None), th.(pc := if sent then Close else Returned))
    case Close => (g, Thread(Returned, th.fPos, true))
    case Returned => (g, th)
  }

  function Step(s: State, e: Event): (s': State)
    requires Shape(s.shared.dev.bufferP)
    ensures Shape(s'.shared.dev.bufferP)
  {
    match e
    case Accept(t) =>
      if t in s.threads then s else s.(threads := s.threads[t := Thread(AllocateBuffer, 0, false)])
    case Go(t, c) =>
      if t !in s.threads then s else
      var (g, th) := Act(s.shared, t, s.threads[t], c);
      State(s.threads[t := th], g)
  }

  /** The thread is between a lock and the matching unlock. */
  predicate InSection(pc: Pc) {
    match pc
    case AppendTest(_) | AppendReset(_, _) | Append(_, _) | WriteUnlock => true
    case SizeSeek | Rewind(_) | AllocateFile(_) | ReadFetch(_) | ReadCopy(_, _) | Send | ReadUnlock(_) => true
    case _ => false
  }

  // ----- The mutex

  ghost predicate LockInv(s: State) {
    && (forall t :: t in s.threads ==> (InSection(s.threads[t].pc) <==> s.shared.owner == Some(t)))
    && (s.shared.owner.Some? ==> s.shared.owner.value in s.threads)
  }

  lemma ActLocks(g: Shared, t: nat, th: Thread, c: Choice)
    requires Shape(g.dev.bufferP) && (InSection(th.pc) <==> g.owner == Some(t))
    ensures var (g', th') := Act(g, t, th, c);
            && (InSection(th'.pc) <==> g'.owner == Some(t))
            && (g'.owner == g.owner || (g.owner == None && g'.owner == Some(t)) || (g.owner == Some(t) && g'.owner == None))
            && (th.pc.WriteLock? || th.pc.ReadLock? ==> g.owner != Some(t))
  {
  }

  // ----- The device

  /** What a thread that is about to write, or is writing, has established about the cursor. */
  predicate Prepared(pc: Pc, d: Dev) {
    && (pc.Append? ==> Armed(d.bufferP))
    && (pc.AppendReset? && pc.wasFull ==> d.bufferP.full)
  }

  ghost predicate DeviceInv(s: State) {
    && Tracks(s.shared.dev, s.shared.journal)
    && NoLeak(s.shared.dev)
    && forall t :: t in s.threads ==> Prepared(s.threads[t].pc, s.shared.dev)
  }

  /** Most steps leave the device alone. */
  lemma ActElsewhere(g: Shared, t: nat, th: Thread, c: Choice)
    requires Shape(g.dev.bufferP)
    requires !th.pc.OpenReset? && !th.pc.AppendReset? && !th.pc.Append? && !th.pc.ReadCopy?
    ensures Act(g, t, th, c).0.dev == g.dev && Act(g, t, th, c).0.journal == g.journal
    ensures Prepared(Act(g, t, th, c).1.pc, g.dev)
  {
  }

  /** A reset by open, and a read, only move the cursor; a reset in preparation of a write arms it. */
  lemma ActOnCursor(g: Shared, t: nat, th: Thread, c: Choice)
    requires Tracks(g.dev, g.journal) && NoLeak(g.dev) && Prepared(th.pc, g.dev)
    requires th.pc.OpenReset? || th.pc.AppendReset? || th.pc.ReadCopy?
    ensures var (g', th') := Act(g, t, th, c);
            && Tracks(g'.dev, g.journal) && NoLeak(g'.dev) && Prepared(th'.pc, g'.dev)
            && g'.journal == g.journal && g'.dev.bufferP.full == g.dev.bufferP.full
            && (th.pc.OpenReset? && Armed(g.dev.bufferP) ==> Armed(g'.dev.bufferP))
  {
    CursorMoveTracked(g.dev, Act(g, t, th, c).0.dev, g.journal);
  }

  lemma ActAppends(g: Shared, t: nat, th: Thread, c: Choice)
    requires Tracks(g.dev, g.journal) && NoLeak(g.dev) && Prepared(th.pc, g.dev) && th.pc.Append?
    ensures var (g', th') := Act(g, t, th, c);
            && Tracks(g'.dev, g'.journal) && NoLeak(g'.dev) && Prepared(th'.pc, g'.dev)
            && (g.dev.bufferP.full ==> g'.dev.bufferP.full)
  {
    if c.Flushed? && 0 < c.n <= |th.pc.rest| {
      ArmedWriteTracked(g.dev, g.journal, th.pc.rest[..c.n]);
    }
  }

  lemma ActDevice(g: Shared, t: nat, th: Thread, c: Choice)
    requires Tracks(g.dev, g.journal) && NoLeak(g.dev) && Prepared(th.pc, g.dev)
    ensures var (g', th') := Act(g, t, th, c);
            && Tracks(g'.dev, g'.journal) && NoLeak(g'.dev) && Prepared(th'.pc, g'.dev)
            && (g.dev.bufferP.full ==> g'.dev.bufferP.full)
            && (!InSection(th.pc) && Armed(g.dev.bufferP) ==> Armed(g'.dev.bufferP))
  {
    if th.pc.OpenReset? || th.pc.AppendReset? || th.pc.ReadCopy? {
      ActOnCursor(g, t, th, c);
    } else if th.pc.Append? {
      ActAppends(g, t, th, c);
    } else {
      ActElsewhere(g, t, th, c);
    }
  }

  // ----- Every interleaving

  ghost predicate Inv(s: State) {
    LockInv(s) && DeviceInv(s)
  }

  lemma StepInv(s: State, e: Event)
    requires Inv(s)
    ensures Inv(Step(s, e))
  {
    if e.Go? && e.t in s.threads {
      var t, th := e.t, s.threads[e.t];
      var (g', th') := Act(s.shared, t, th, e.c);
      ActLocks(s.shared, t, th, e.c);
      ActDevice(s.shared, t, th, e.c);
      forall u | u in s.threads && u != t
        ensures Prepared(s.threads[u].pc, g'.dev) && (InSection(s.threads[u].pc) <==> g'.owner == Some(u))
      {
        if s.threads[u].pc.Append? {
          assert s.shared.owner == Some(u) && !InSection(th.pc);
        }
      }
    }
  }

  function RunServer(events: seq<Event>): (s: State)
    ensures Shape(s.shared.dev.bufferP)
  {
    if events == [] then INITIAL_STATE else Step(RunServer(events[..|events| - 1]), events[|events| - 1])
  }

  lemma InitialInv()
    ensures Inv(INITIAL_STATE)
  {
    InitialOwned();
    EmptyHolds<seq<byte>>([]);
  }

  lemma {:induction false} RunInv(events: seq<Event>)
    ensures Inv(RunServer(events))
  {
    if events == [] {
      InitialInv();
    } else {
      RunInv(events[..|events| - 1]);
      StepInv(RunServer(events[..|events| - 1]), events[|events| - 1]);
    }
  }

  /**
   Across every interleaving the ring read from `in_offs` is exactly the last ten committed entries
   in commit order, it is marked full exactly from the tenth commit on, and no block is leaked.
   */
  lemma RingIsLastTenCommits(events: seq<Event>)
    ensures var g := RunServer(events).shared;
            && Shape(View(g.dev))
            && Contents(View(g.dev)) == LastTen(g.journal.lines)
            && (g.dev.bufferP.full <==> |g.journal.lines| >= CAPACITY)
            && Pending(g.dev) == g.journal.pending
            && forall p :: p in g.dev.heap.blocks <==> IsBlock(p) && Reaches(g.dev, p)
  {
    var d := RunServer(events).shared.dev;
    RunInv(events);
    forall p | IsBlock(p) && Reaches(d, p) ensures p in d.heap.blocks {
      if p != d.entry.buffptr {
        var i :| 0 <= i < |d.bufferP.slot| && d.bufferP.slot[i].buffptr == p;
        assert Denotes(d.heap, d.bufferP.slot[i]);
      }
    }
  }

  /** At most one thread is in a section, none locks what it holds, none returns holding it. */
  lemma MutualExclusion(events: seq<Event>, t: nat, u: nat)
    requires t in RunServer(events).threads && u in RunServer(events).threads
    ensures var s := RunServer(events);
            && (InSection(s.threads[t].pc) && InSection(s.threads[u].pc) ==> t == u)
            && (s.threads[t].pc.WriteLock? || s.threads[t].pc.ReadLock? ==> s.shared.owner != Some(t))
            && (s.threads[t].pc.Returned? ==> s.shared.owner != Some(t))
  {
    RunInv(events);
  }

  ghost predicate CompleteInv(s: State) {
    forall t :: t in s.threads && s.threads[t].complete ==> s.threads[t].pc.Returned?
  }

  lemma {:induction false} RunComplete(events: seq<Event>)
    ensures CompleteInv(RunServer(events))
  {
    if events != [] {
      RunComplete(events[..|events| - 1]);
    }
  }

  /** A thread that reports completion has returned without the mutex, so joining it does not wait. */
  lemma CompleteMeansReturned(events: seq<Event>, t: nat)
    requires t in RunServer(events).threads && RunServer(events).threads[t].complete
    ensures RunServer(events).threads[t].pc.Returned? && RunServer(events).shared.owner != Some(t)
  {
    RunComplete(events);
    RunInv(events);
  }

  // ----- The cursor before the ring is full

  /**
   The size to read is SEEK_END, which counts from `out_offs`: as long as the ring is not full, it is
   0 at every point between the seek and the copy.
   */
  predicate AsksForNothing(th: Thread, d: Dev) {
    d.bufferP.full ||
    match th.pc
    case Rewind(fileSize) => fileSize == 0
    case AllocateFile(fileSize) => fileSize == 0 && th.fPos == 0
    case ReadFetch(count) => count == 0 && th.fPos == 0
    case ReadCopy(count, _) => count == 0 && th.fPos == 0
    case _ => true
  }

  ghost predicate CursorInv(s: State) {
    && Shape(s.shared.dev.bufferP) && Armed(s.shared.dev.bufferP)
    && forall t :: t in s.threads ==> AsksForNothing(s.threads[t], s.shared.dev)
  }

  lemma ActCursor(g: Shared, t: nat, th: Thread, c: Choice)
    requires Shape(g.dev.bufferP) && Armed(g.dev.bufferP) && AsksForNothing(th, g.dev)
    ensures var (g', th') := Act(g, t, th, c);
            && Armed(g'.dev.bufferP) && AsksForNothing(th', g'.dev)
            && (g.dev.bufferP.full ==> g'.dev.bufferP.full)
  {
  }

  lemma StepCursor(s: State, e: Event)
    requires CursorInv(s)
    ensures CursorInv(Step(s, e))
  {
    if e.Go? && e.t in s.threads {
      ActCursor(s.shared, e.t, s.threads[e.t], e.c);
    }
  }

  lemma {:induction false} RunCursor(events: seq<Event>)
    ensures CursorInv(RunServer(events))
  {
    if events != [] {
      RunCursor(events[..|events| - 1]);
      StepCursor(RunServer(events[..|events| - 1]), events[|events| - 1]);
    }
  }

  /**
   In every interleaving the cursor rests on slot 0 until the tenth commit, so the server's own reads
   never make the driver miss that the ring is full.
   */
  lemma CursorRestsUntilFull(events: seq<Event>)
    ensures var g := RunServer(events).shared;
            && (|g.journal.lines| < CAPACITY ==> g.dev.bufferP.outOffs == 0)
            && FullTestCorrect(g.dev.bufferP)
  {
    RunCursor(events);
    RingIsLastTenCommits(events);
  }

  // ----- Sections end

  /** The steps, at most, that a thread in a section takes before it has left it. */
  function StepsLeft(pc: Pc): nat {
    match pc
    case AppendTest(text) => |text| + 5
    case AppendReset(text, _) => |text| + 4
    case Append(rest, failed) => if failed then |rest| + 2 else |rest| + 3
    case SizeSeek => 7
    case Rewind(_) => 6
    case AllocateFile(_) => 5
    case ReadFetch(_) => 4
    case ReadCopy(_, _) => 3
    case Send => 2
    case WriteUnlock | ReadUnlock(_) => 1
    case _ => 0
  }

  /** The one thing that can keep a thread in its section: a flush that reports no progress. */
  predicate Progresses(pc: Pc, c: Choice) {
    pc.Append? && pc.rest != [] ==> c.Fails? || (c.Flushed? && 0 < c.n <= |pc.rest|)
  }

  /** Whatever the calls return, a step of the holder that makes progress brings the release nearer. */
  lemma ReleaseStep(s: State, t: nat, c: Choice)
    requires Shape(s.shared.dev.bufferP) && LockInv(s) && s.shared.owner == Some(t)
    ensures var pc, s' := s.threads[t].pc, Step(s, Go(t, c));
            && (Progresses(pc, c) && StepsLeft(pc) == 1 ==> s'.shared.owner == None)
            && (Progresses(pc, c) && StepsLeft(pc) != 1 ==>
                  s'.shared.owner == Some(t) && 0 < StepsLeft(s'.threads[t].pc) < StepsLeft(pc))
            && (!Progresses(pc, c) ==> s' == s)
  {
    assert InSection(s.threads[t].pc);
  }

  /** Other threads neither take the mutex away nor move the holder. */
  lemma OthersWait(s: State, t: nat, e: Event)
    requires Shape(s.shared.dev.bufferP) && LockInv(s) && s.shared.owner == Some(t)
    requires e.Accept? || e.t != t
    ensures Step(s, e).shared.owner == Some(t) && t in Step(s, e).threads && Step(s, e).threads[t] == s.threads[t]
  {
  }

  /** The event is a step of thread t that makes progress. */
  predicate Advances(s: State, t: nat, e: Event) {
    e.Go? && e.t == t && t in s.threads && Progresses(s.threads[t].pc, e.c)
  }

  lemma HolderInside(events: seq<Event>, t: nat)
    requires RunServer(events).shared.owner == Some(t) && t in RunServer(events).threads
    ensures LockInv(RunServer(events)) && StepsLeft(RunServer(events).threads[t].pc) > 0
  {
    RunInv(events);
    assert InSection(RunServer(events).threads[t].pc);
  }

  lemma HolderStep(events: seq<Event>, t: nat, e: Event)
    requires RunServer(events).shared.owner == Some(t) && t in RunServer(events).threads
    ensures var s, s' := RunServer(events), RunServer(events + [e]); var n := StepsLeft(s.threads[t].pc);
            if Advances(s, t, e) && n == 1 then s'.shared.owner == None
            else s'.shared.owner == Some(t) && t in s'.threads
                 && StepsLeft(s'.threads[t].pc) <= if Advances(s, t, e) then n - 1 else n
  {
    var s := RunServer(events);
    HolderInside(events, t);
    ServerSnoc(events, e);
    if e.Go? && e.t == t {
      ReleaseStep(s, t, e.c);
    } else {
      OthersWait(s, t, e);
    }
  }

  lemma ServerSnoc(events: seq<Event>, e: Event)
    ensures RunServer(events + [e]) == Step(RunServer(events), e)
  {
    assert (events + [e])[..|events|] == events;
  }

  /** The steps among `more` in which thread t makes progress, from the state after `events`. */
  function ProgressBy(events: seq<Event>, more: seq<Event>, t: nat): nat
    decreases |more|
  {
    if more == [] then 0 else
    (if Advances(RunServer(events), t, more[0]) then 1 else 0) + ProgressBy(events + [more[0]], more[1..], t)
  }

  /** One event of a section: it ends, or enough progress is still to come. */
  lemma SectionStep(events: seq<Event>, more: seq<Event>, t: nat)
    requires RunServer(events).shared.owner == Some(t) && t in RunServer(events).threads
    requires ProgressBy(events, more, t) >= StepsLeft(RunServer(events).threads[t].pc)
    ensures more != []
    ensures var s' := RunServer(events + [more[0]]);
            || s'.shared.owner == None
            || (s'.shared.owner == Some(t) && t in s'.threads
                && ProgressBy(events + [more[0]], more[1..], t) >= StepsLeft(s'.threads[t].pc))
  {
    HolderInside(events, t);
    HolderStep(events, t, more[0]);
  }

  /**
   Every section ends: however the other threads are scheduled in between and whatever the calls of
   the holder return, it gives the mutex back within as many of its progressing steps as it has left.
   */
  lemma {:induction false} SectionEnds(events: seq<Event>, more: seq<Event>, t: nat) returns (k: nat)
    requires RunServer(events).shared.owner == Some(t) && t in RunServer(events).threads
    requires ProgressBy(events, more, t) >= StepsLeft(RunServer(events).threads[t].pc)
    ensures k <= |more| && RunServer(events + more[..k]).shared.owner == None
    decreases |more|
  {
    SectionStep(events, more, t);
    var next := events + [more[0]];
    if RunServer(next).shared.owner == None {
      k := 1;
      assert events + more[..k] == next;
    } else {
      var j := SectionEnds(next, more[1..], t);
      k := j + 1;
      assert events + more[..k] == next + more[1..][..j];
    }
  }

  /** The rounds of failing calls after which a thread in a section has left it. */
  function RoundsToRelease(pc: Pc): nat {
    match pc
    case AppendReset(_, _) | SizeSeek | ReadFetch(_) => 4
    case Append(_, false) | Rewind(_) | ReadCopy(_, _) => 3
    case AppendTest(_) | Append(_, true) | AllocateFile(_) | Send => 2
    case WriteUnlock | ReadUnlock(_) => 1
    case _ => 0
  }

  lemma FailingStep(s: State, t: nat)
    requires Shape(s.shared.dev.bufferP) && LockInv(s) && s.shared.owner == Some(t)
    ensures var s' := Step(s, Go(t, Fails));
            if RoundsToRelease(s.threads[t].pc) == 1 then s'.shared.owner == None
            else s'.shared.owner == Some(t) && RoundsToRelease(s'.threads[t].pc) < RoundsToRelease(s.threads[t].pc)
  {
    assert InSection(s.threads[t].pc);
  }

  /** Even if every call fails from now on, the holder of the mutex gives it back without waiting. */
  lemma {:induction false} HolderReleases(events: seq<Event>, t: nat) returns (more: seq<Event>)
    requires RunServer(events).shared.owner == Some(t)
    ensures t in RunServer(events).threads && |more| <= RoundsToRelease(RunServer(events).threads[t].pc) <= 4
    ensures forall i :: 0 <= i < |more| ==> more[i] == Go(t, Fails)
    ensures RunServer(events + more).shared.owner == None
    decreases if t in RunServer(events).threads then RoundsToRelease(RunServer(events).threads[t].pc) else 0
  {
    var e := Go(t, Fails);
    assert LockInv(RunServer(events)) by {
      RunInv(events);
    }
    FailingStep(RunServer(events), t);
    ServerSnoc(events, e);
    if RoundsToRelease(RunServer(events).threads[t].pc) == 1 {
      more := [e];
    } else {
      var rest := HolderReleases(events + [e], t);
      more := [e] + rest;
      assert events + more == (events + [e]) + rest;
    }
  }

  // ----- A message with an inner newline

  /** Whatever is not a flush at most moves the cursor. */
  lemma ActMovesCursor(g: Shared, t: nat, th: Thread, c: Choice)
    requires Shape(g.dev.bufferP)
    requires !(th.pc.Append? && c.Flushed? && 0 < c.n <= |th.pc.rest|)
    ensures var d, d' := g.dev, Act(g, t, th, c).0.dev;
            d' == Dev(d.entry, d.bufferP.(outOffs := d'.bufferP.outOffs), d'.readCounter, d.heap)
            && d'.bufferP.outOffs < CAPACITY
  {
  }

  lemma ActFlushes(g: Shared, t: nat, th: Thread, c: Choice)
    requires Shape(g.dev.bufferP)
    requires th.pc.Append? && c.Flushed? && 0 < c.n <= |th.pc.rest|
    ensures Act(g, t, th, c).0.dev == Write(g.dev, th.pc.rest[..c.n], Copied)
  {
  }

  lemma ActStuck(g: Shared, t: nat, th: Thread, c: Choice)
    requires Owned(g.dev) && Stuck(Pending(g.dev))
    ensures StuckSince(g.dev, Act(g, t, th, c).0.dev)
  {
    if th.pc.Append? && c.Flushed? && 0 < c.n <= |th.pc.rest| {
      ActFlushes(g, t, th, c);
      StuckStep(g.dev, OpWrite(th.pc.rest[..c.n], Copied));
    } else {
      ActMovesCursor(g, t, th, c);
      CursorMoves(g.dev, Act(g, t, th, c).0.dev);
    }
  }

  /** Still stuck, with the stored entries, the write index and the flag unchanged and more bytes pending. */
  ghost predicate StuckSince(d: Dev, d': Dev) {
    && Owned(d') && Stuck(Pending(d')) && Pending(d) <= Pending(d')
    && View(d') == View(d).(outOffs := d'.bufferP.outOffs)
  }

  lemma WriteSticks(d: Dev, text: seq<byte>)
    requires Owned(d) && Pending(d) == [] && text != []
    ensures Stuck(Pending(Write(d, text, Copied))) <==> Stuck(text)
  {
    AccumulateSteps(d, text);
    assert [] + text == text;
    if Complete(text) {
      CommitOwned(Accumulate(d, text));
    }
  }

  /** With nothing pending, a message flushed at once is stuck exactly if it has a newline before its last byte. */
  lemma InnerNewlineSticks(events: seq<Event>, t: nat)
    requires var s := RunServer(events);
             && t in s.threads && s.threads[t].pc.Append? && s.threads[t].pc.rest != [] && Pending(s.shared.dev) == []
    ensures var rest := RunServer(events).threads[t].pc.rest;
            Stuck(Pending(RunServer(events + [Go(t, Flushed(|rest|))]).shared.dev)) <==> Stuck(rest)
  {
    var s := RunServer(events);
    var rest := s.threads[t].pc.rest;
    RunInv(events);
    ServerSnoc(events, Go(t, Flushed(|rest|)));
    ActFlushes(s.shared, t, s.threads[t], Flushed(|rest|));
    assert rest[..|rest|] == rest;
    WriteSticks(s.shared.dev, rest);
  }

  /**
   Once the pending entry has a newline before its last byte, nothing that any client does afterwards
   is stored: the ring's contents are final, and the pending entry only grows.
   */
  lemma {:induction false} StuckForAll(before: seq<Event>, more: seq<Event>)
    requires Stuck(Pending(RunServer(before).shared.dev))
    ensures StuckSince(RunServer(before).shared.dev, RunServer(before + more).shared.dev)
  {
    if more == [] {
      RunInv(before);
      assert before + more == before;
    } else {
      var some, e := more[..|more| - 1], more[|more| - 1];
      StuckForAll(before, some);
      ServerSnoc(before + some, e);
      assert before + more == (before + some) + [e];
      var s := RunServer(before + some);
      if e.Go? && e.t in s.threads {
        ActStuck(s.shared, e.t, s.threads[e.t], e.c);
      }
    }
  }

  // ----- Messages stay whole

  /** Every message begun so far is one line, and none was cut short by an error. */
  ghost predicate Clean(g: Shared) {
    !g.abandoned && forall i :: 0 <= i < |g.messages| ==> g.messages[i] != [] && Complete(g.messages[i])
  }

  /** What the holder of the mutex still has to write of its message. */
  function Unwritten(s: State): seq<byte> {
    if s.shared.owner.Some? && s.shared.owner.value in s.threads && s.threads[s.shared.owner.value].pc.Append?
    then s.threads[s.shared.owner.value].pc.rest else []
  }

  /** What remains to be written of the last message fits the history. */
  ghost predicate Fits(messages: seq<seq<byte>>, j: Journal, rest: seq<byte>) {
    var n := |messages|;
    if rest == [] then j == Journal(messages, [])
    else n > 0 && j.lines == messages[..n - 1] && j.pending + rest == messages[n - 1]
  }

  ghost predicate MessageInv(s: State) {
    Clean(s.shared) ==> Fits(s.shared.messages, s.shared.journal, Unwritten(s))
  }

  /** Part of a line does not commit, the whole of it does. */
  lemma FeedPart(lines: seq<seq<byte>>, done: seq<byte>, rest: seq<byte>, n: nat)
    requires Complete(done + rest) && 0 < n <= |rest|
    ensures Feed(Journal(lines, done), rest[..n]) ==
            if n == |rest| then Journal(lines + [done + rest], []) else Journal(lines, done + rest[..n])
  {
    var m, data := done + rest, done + rest[..n];
    assert NoEol(m, 0, |m| - 1);
    if n == |rest| {
      assert data == m;
    } else {
      assert NoEol(data, 0, |data|) by {
        assert forall k :: 0 <= k < |data| ==> data[k] == m[k];
      }
    }
  }

  lemma CleanBefore(g: Shared, text: seq<byte>)
    requires Clean(g.(messages := g.messages + [text]))
    ensures Clean(g) && text != [] && Complete(text)
  {
    var messages := g.messages + [text];
    assert messages[|g.messages|] == text;
    assert forall i :: 0 <= i < |g.messages| ==> g.messages[i] == messages[i];
  }

  /** A message is begun only when the history is exactly the messages before it. */
  lemma BeginMessage(s: State, t: nat, c: Choice)
    requires Shape(s.shared.dev.bufferP) && LockInv(s) && MessageInv(s)
    requires t in s.threads && s.threads[t].pc.AppendReset?
    ensures MessageInv(Step(s, Go(t, c)))
  {
    var g, text, s' := s.shared, s.threads[t].pc.text, Step(s, Go(t, c));
    assert InSection(s.threads[t].pc) && g.owner == Some(t) && Unwritten(s) == [] && Unwritten(s') == text;
    if Clean(s'.shared) {
      CleanBefore(g, text);
      assert s'.shared.messages[..|g.messages|] == g.messages;
      assert [] + text == text;
    }
  }

  lemma FeedFits(messages: seq<seq<byte>>, j: Journal, rest: seq<byte>, n: nat)
    requires Fits(messages, j, rest) && 0 < n <= |rest| && Complete(messages[|messages| - 1])
    ensures Fits(messages, Feed(j, rest[..n]), rest[n..])
  {
    var m := messages[|messages| - 1];
    FeedPart(j.lines, j.pending, rest, n);
    assert messages == messages[..|messages| - 1] + [m];
    assert (j.pending + rest[..n]) + rest[n..] == j.pending + rest;
  }

  /** The holder's flush, seen from the shared state. */
  lemma FlushEffect(s: State, t: nat, n: nat)
    requires Shape(s.shared.dev.bufferP) && LockInv(s) && t in s.threads
    requires s.threads[t].pc.Append? && 0 < n <= |s.threads[t].pc.rest|
    ensures var rest, s' := s.threads[t].pc.rest, Step(s, Go(t, Flushed(n)));
            && Unwritten(s) == rest && Unwritten(s') == rest[n..]
            && s'.shared.journal == Feed(s.shared.journal, rest[..n])
            && s'.shared.messages == s.shared.messages && s'.shared.abandoned == s.shared.abandoned
  {
    assert InSection(s.threads[t].pc) && s.shared.owner == Some(t);
  }

  lemma ContinueMessage(s: State, t: nat, c: Choice)
    requires Shape(s.shared.dev.bufferP) && LockInv(s) && MessageInv(s)
    requires t in s.threads && s.threads[t].pc.Append?
    ensures MessageInv(Step(s, Go(t, c)))
  {
    var g, rest := s.shared, s.threads[t].pc.rest;
    assert InSection(s.threads[t].pc) && g.owner == Some(t) && Unwritten(s) == rest;
    if c.Flushed? && 0 < c.n <= |rest| {
      FlushEffect(s, t, c.n);
      if Clean(g) {
        FeedFits(g.messages, g.journal, rest, c.n);
      }
    }
  }

  lemma LeaveMessages(s: State, t: nat, c: Choice)
    requires Shape(s.shared.dev.bufferP) && LockInv(s) && MessageInv(s)
    requires t in s.threads && !s.threads[t].pc.AppendReset? && !s.threads[t].pc.Append?
    ensures MessageInv(Step(s, Go(t, c)))
  {
    var s' := Step(s, Go(t, c));
    ActLocks(s.shared, t, s.threads[t], c);
    assert Unwritten(s') == Unwritten(s);
    assert s'.shared.journal == s.shared.journal && s'.shared.messages == s.shared.messages;
  }

  lemma {:induction false} RunMessages(events: seq<Event>)
    ensures MessageInv(RunServer(events))
  {
    if events != [] {
      var s, e := RunServer(events[..|events| - 1]), events[|events| - 1];
      RunMessages(events[..|events| - 1]);
      assert LockInv(s) by {
        RunInv(events[..|events| - 1]);
      }
      if e.Go? && e.t in s.threads {
        if s.threads[e.t].pc.AppendReset? {
          BeginMessage(s, e.t, e.c);
        } else if s.threads[e.t].pc.Append? {
          ContinueMessage(s, e.t, e.c);
        } else {
          LeaveMessages(s, e.t, e.c);
        }
      } else {
        assert Unwritten(Step(s, e)) == Unwritten(s);
      }
    }
  }

  /**
   If every client so far sent single lines and no append failed, the ring is the last ten messages
   in the order in which the mutex admitted them; a message being appended is not visible before
   its last byte.
   */
  lemma RingIsLastTenMessages(events: seq<Event>)
    requires Clean(RunServer(events).shared)
    ensures var s := RunServer(events); var g := s.shared; var n := |g.messages|;
            && (Unwritten(s) == [] ==> Contents(View(g.dev)) == LastTen(g.messages) && Pending(g.dev) == [])
            && (Unwritten(s) != [] ==>
                  && n > 0 && Contents(View(g.dev)) == LastTen(g.messages[..n - 1])
                  && Pending(g.dev) + Unwritten(s) == g.messages[n - 1])
  {
    RunMessages(events);
    RingIsLastTenCommits(events);
  }
}
