/**
 From what the clients send to what the server stores: every run of the server read as a sequence of
 buffers received, messages begun and calls failed.
 */
module ServerTrace {
  import opened CircularBuffer
  import opened Kernel
  import opened DeviceSpec
  import opened Ownership
  import opened LineHistory
  import opened Commits
  import opened Seeking
  import opened Server

  // ----- What a received buffer starts

  const COMMAND := "AESDCHAR_IOCSEEKTO:"

  predicate IsSeekCommand(bytes: seq<byte>) {
    |bytes| >= |COMMAND| && forall i :: 0 <= i < |COMMAND| ==> bytes[i] == COMMAND[i] as int
  }

  lemma SeekPrefixIff(bytes: seq<byte>)
    ensures SEEK_PREFIX <= bytes <==> IsSeekCommand(bytes)
  {
    assert |SEEK_PREFIX| == |COMMAND| && forall i :: 0 <= i < |COMMAND| ==> SEEK_PREFIX[i] == COMMAND[i] as int;
    if IsSeekCommand(bytes) {
      assert SEEK_PREFIX == bytes[..|SEEK_PREFIX|];
    }
  }

  /** A buffer as large as a read can give, that ends in a newline and is not a seek command. */
  predicate IsMessage(bytes: seq<byte>) {
    0 < |bytes| < 10 * 1024 && bytes[|bytes| - 1] == 10 && !IsSeekCommand(bytes)
  }

  /** The buffer up to its first 0, or all of it. */
  predicate TextOf(bytes: seq<byte>, text: seq<byte>) {
    && text <= bytes && (forall i :: 0 <= i < |text| ==> text[i] != 0)
    && (|text| < |bytes| ==> bytes[|text|] == 0)
  }

  lemma {:induction false} UpToNulIsText(bytes: seq<byte>)
    ensures TextOf(bytes, UpToNul(bytes))
  {
    if bytes != [] && bytes[0] != 0 {
      UpToNulIsText(bytes[1..]);
      assert bytes == [bytes[0]] + bytes[1..];
    }
  }

  /** Where a seek command in the buffer puts the position. */
  function SoughtFrom(d: Dev, fPos: nat, bytes: seq<byte>, args: Option<(nat, nat)>): nat {
    if 0 < |bytes| < 10 * 1024 && IsSeekCommand(bytes) && args.Some?
       && args.value.0 < |Stored(d)| && args.value.1 < |Stored(d)[args.value.0]|
    then |Concat(Stored(d)[..args.value.0])| + args.value.1 else fPos
  }

  lemma DispatchSeeks(g: Shared, th: Thread, bytes: seq<byte>, args: Option<(nat, nat)>)
    requires Owned(g.dev) && th.pc.Receive?
    ensures Dispatch(g, th, bytes, args).fPos == SoughtFrom(g.dev, th.fPos, bytes, args)
  {
    SeekPrefixIff(bytes);
    if args.Some? {
      SeekAddressesByte(g.dev, args.value.0, args.value.1);
    }
  }

  /**
   A thread that receives a buffer starts a message exactly if it is one, with the buffer's text; after
   any other buffer it goes on receiving. It changes nothing shared, and its position only by a seek.
   */
  lemma ReceiveStartsMessage(g: Shared, t: nat, th: Thread, bytes: seq<byte>, args: Option<(nat, nat)>)
    requires Owned(g.dev) && th.pc.Receive?
    ensures var (g', th') := Act(g, t, th, Received(bytes, args));
            && g' == g && th'.complete == th.complete && th'.fPos == SoughtFrom(g.dev, th.fPos, bytes, args)
            && if IsMessage(bytes) then th'.pc.WriteLock? && TextOf(bytes, th'.pc.text) else th'.pc == Receive
  {
    UpToNulIsText(bytes);
    SeekPrefixIff(bytes);
    DispatchSeeks(g, th, bytes, args);
  }

  // ----- Runs as traces

  /** The state in which event e of the run finds the server. */
  function Before(events: seq<Event>, e: nat): (s: State)
    requires e < |events|
    ensures Shape(s.shared.dev.bufferP)
  {
    RunServer(events[..e])
  }

  /** Event e of the run is a step of thread t. */
  predicate StepOf(events: seq<Event>, e: nat, t: nat) {
    e < |events| && events[e].Go? && events[e].t == t && t in Before(events, e).threads
  }

  function PcAt(events: seq<Event>, e: nat, t: nat): Pc
    requires StepOf(events, e, t)
  {
    Before(events, e).threads[t].pc
  }

  /** With event e thread t receives a message. */
  predicate ReceivesMessage(events: seq<Event>, e: nat, t: nat) {
    && StepOf(events, e, t) && PcAt(events, e, t).Receive?
    && events[e].c.Received? && IsMessage(events[e].c.bytes)
  }

  /** With event e thread t, which holds the mutex, begins to append. */
  predicate Begins(events: seq<Event>, e: nat, t: nat) {
    && StepOf(events, e, t) && PcAt(events, e, t).AppendReset?
    && Before(events, e).shared.owner == Some(t)
  }

  /** With event e thread t fails to open the device for its message. */
  predicate LosesMessage(events: seq<Event>, e: nat, t: nat) {
    StepOf(events, e, t) && PcAt(events, e, t).AppendTest? && events[e].c.Fails?
  }

  /** With event e some of a message fails to reach the device. */
  predicate FailsToFlush(events: seq<Event>, e: nat, t: nat) {
    && StepOf(events, e, t) && PcAt(events, e, t).Append? && PcAt(events, e, t).rest != []
    && events[e].c.Fails?
  }

  lemma LastStep(events: seq<Event>)
    requires events != []
    ensures var n := |events| - 1;
            Before(events, n) == RunServer(events[..n]) && RunServer(events) == Step(Before(events, n), events[n])
  {
  }

  lemma SameBefore(events: seq<Event>, e: nat)
    requires e < |events| - 1
    ensures Before(events, e) == Before(events[..|events| - 1], e) && events[..|events| - 1][e] == events[e]
  {
    assert events[..|events| - 1][..e] == events[..e];
  }

  // ----- Every message comes from a buffer received

  /** The text that a thread has received and not begun to append. */
  function Carried(pc: Pc): Option<seq<byte>> {
    match pc
    case WriteLock(text) => Some(text)
    case AppendTest(text) => Some(text)
    case AppendReset(text, _) => Some(text)
    case _ => None
  }

  /** Where the messages come from: when each was begun and when its buffer was received. */
  datatype Origin = Origin(begun: seq<nat>, from: seq<nat>, author: seq<nat>)

  /** Buffers whose threads have yet to append them, and buffers lost to a failing open. */
  datatype Others = Others(carried: map<nat, nat>, lost: map<nat, nat>)

  ghost predicate Receipt(events: seq<Event>, r: nat, t: nat, text: seq<byte>) {
    ReceivesMessage(events, r, t) && TextOf(events[r].c.bytes, text)
  }

  ghost predicate InOrder(o: Origin) {
    && |o.begun| == |o.from| == |o.author|
    && forall i, j :: 0 <= i < j < |o.begun| ==> o.begun[i] < o.begun[j] && o.from[i] != o.from[j]
  }

  ghost predicate BegunAfterReceipt(events: seq<Event>, o: Origin, i: nat, text: seq<byte>)
    requires |o.begun| == |o.from| == |o.author| && i < |o.begun|
  {
    o.from[i] < o.begun[i] && Begins(events, o.begun[i], o.author[i]) && Receipt(events, o.from[i], o.author[i], text)
  }

  /** One message for each append begun, in the order in which the mutex admitted them, from different buffers. */
  ghost predicate Originates(events: seq<Event>, messages: seq<seq<byte>>, o: Origin) {
    && InOrder(o) && |o.begun| == |messages|
    && (forall i :: 0 <= i < |messages| ==> BegunAfterReceipt(events, o, i, messages[i]))
    && forall e: nat, t: nat :: Begins(events, e, t) ==> e in o.begun
  }

  ghost predicate CarriesOne(events: seq<Event>, th: Thread, t: nat, o: Origin, k: Others) {
    Carried(th.pc).Some? ==>
      && t in k.carried && k.carried[t] !in o.from && k.carried[t] !in k.lost
      && Receipt(events, k.carried[t], t, Carried(th.pc).value)
  }

  ghost predicate StillCarried(events: seq<Event>, r: nat, t: nat, k: Others) {
    var s := RunServer(events);
    t in s.threads && Carried(s.threads[t].pc).Some? && t in k.carried && k.carried[t] == r
  }

  /** A buffer received has been begun, or is carried, or was lost to a failing open. */
  ghost predicate Accounted(events: seq<Event>, r: nat, t: nat, o: Origin, k: Others) {
    || r in o.from
    || StillCarried(events, r, t, k)
    || (r in k.lost && r < k.lost[r] && LosesMessage(events, k.lost[r], t))
  }

  ghost predicate Traced(events: seq<Event>, o: Origin, k: Others) {
    var s := RunServer(events);
    && Originates(events, s.shared.messages, o)
    && (forall t :: t in s.threads ==> CarriesOne(events, s.threads[t], t, o, k))
    && (forall r: nat, t: nat :: ReceivesMessage(events, r, t) ==> Accounted(events, r, t, o, k))
    && forall r :: r in k.lost ==> r < |events|
  }

  /** The step neither receives, begins nor loses a message. */
  predicate Quiet(pc: Pc, c: Choice) {
    && !pc.AppendReset? && !(pc.AppendTest? && c.Fails?)
    && !(pc.Receive? && c.Received? && IsMessage(c.bytes))
  }

  /** What one step does to the text a thread carries and to the messages begun. */
  lemma ActCarries(g: Shared, t: nat, th: Thread, c: Choice)
    requires Shape(g.dev.bufferP)
    ensures var (g', th') := Act(g, t, th, c); var text := Carried(th.pc);
            && g'.messages == (if th.pc.AppendReset? then g.messages + [text.value] else g.messages)
            && (th.pc.AppendReset? || (th.pc.AppendTest? && c.Fails?) ==> Carried(th'.pc) == None)
            && (th.pc.Receive? && c.Received? && IsMessage(c.bytes) ==>
                  Carried(th'.pc).Some? && TextOf(c.bytes, Carried(th'.pc).value))
            && (Quiet(th.pc, c) ==> Carried(th'.pc) == text)
  {
    if th.pc.Receive? && c.Received? {
      UpToNulIsText(c.bytes);
      SeekPrefixIff(c.bytes);
    }
  }

  /** The earlier events are those of the shorter run. */
  lemma SameEvents(events: seq<Event>)
    requires events != []
    ensures var n, before := |events| - 1, events[..|events| - 1];
            forall e: nat, t: nat :: e < n ==>
              && (ReceivesMessage(events, e, t) <==> ReceivesMessage(before, e, t))
              && (Begins(events, e, t) <==> Begins(before, e, t))
              && (LosesMessage(events, e, t) <==> LosesMessage(before, e, t))
  {
    forall e | 0 <= e < |events| - 1
      ensures Before(events, e) == Before(events[..|events| - 1], e) && events[..|events| - 1][e] == events[e]
    {
      SameBefore(events, e);
    }
  }

  lemma SameReceipts(events: seq<Event>)
    requires events != []
    ensures var before := events[..|events| - 1];
            forall r: nat, t: nat, text :: Receipt(before, r, t, text) ==> Receipt(events, r, t, text)
  {
    SameEvents(events);
  }

  lemma OriginatesLonger(events: seq<Event>, messages: seq<seq<byte>>, o: Origin)
    requires events != [] && Originates(events[..|events| - 1], messages, o)
    requires events[|events| - 1].Go? ==> !Begins(events, |events| - 1, events[|events| - 1].t)
    ensures Originates(events, messages, o)
  {
    SameEvents(events);
    forall i | 0 <= i < |messages| ensures BegunAfterReceipt(events, o, i, messages[i]) {
      BegunLonger(events, o, o, i, messages[i]);
    }
  }

  lemma EarlierReceipts(events: seq<Event>, messages: seq<seq<byte>>, o: Origin)
    requires Originates(events, messages, o)
    ensures forall r :: r in o.from ==> r < |events|
    ensures forall i :: 0 <= i < |o.begun| ==> o.from[i] < o.begun[i] < |events|
  {
    forall i | 0 <= i < |messages| ensures o.from[i] < o.begun[i] < |events| {
      assert BegunAfterReceipt(events, o, i, messages[i]);
    }
  }

  lemma InOrderNext(o: Origin, b: nat, r: nat, t: nat)
    requires InOrder(o) && r !in o.from && forall i :: 0 <= i < |o.begun| ==> o.begun[i] < b
    ensures InOrder(Origin(o.begun + [b], o.from + [r], o.author + [t]))
  {
    forall i | 0 <= i < |o.from| ensures o.from[i] != r {
      assert o.from[i] in o.from;
    }
  }

  lemma BegunLonger(events: seq<Event>, o: Origin, o': Origin, i: nat, text: seq<byte>)
    requires events != [] && |o.begun| == |o.from| == |o.author| && i < |o.begun|
    requires BegunAfterReceipt(events[..|events| - 1], o, i, text)
    requires |o'.begun| == |o'.from| == |o'.author| && o.begun <= o'.begun && o.from <= o'.from && o.author <= o'.author
    ensures BegunAfterReceipt(events, o', i, text)
  {
    SameEvents(events);
    SameReceipts(events);
  }

  lemma AllBegunNext(events: seq<Event>, before: seq<Event>, begun: seq<nat>)
    requires events != [] && before == events[..|events| - 1]
    requires forall e: nat, t: nat :: Begins(before, e, t) ==> e in begun
    ensures forall e: nat, t: nat :: Begins(events, e, t) ==> e in begun + [|events| - 1]
  {
    SameEvents(events);
    forall e: nat, t: nat | Begins(events, e, t) ensures e in begun + [|events| - 1] {
      if e < |events| - 1 {
        assert Begins(before, e, t);
      }
    }
  }

  lemma OriginatesNext(events: seq<Event>, messages: seq<seq<byte>>, o: Origin, r: nat, t: nat, text: seq<byte>)
    requires events != [] && Originates(events[..|events| - 1], messages, o)
    requires Begins(events, |events| - 1, t) && Receipt(events[..|events| - 1], r, t, text) && r !in o.from
    ensures var o' := Origin(o.begun + [|events| - 1], o.from + [r], o.author + [t]);
            Originates(events, messages + [text], o')
  {
    var n := |events| - 1;
    var o' := Origin(o.begun + [n], o.from + [r], o.author + [t]);
    EarlierReceipts(events[..n], messages, o);
    InOrderNext(o, n, r, t);
    AllBegunNext(events, events[..n], o.begun);
    forall i | 0 <= i < |messages| + 1 ensures BegunAfterReceipt(events, o', i, (messages + [text])[i]) {
      if i < |messages| {
        BegunLonger(events, o, o', i, messages[i]);
      } else {
        SameReceipts(events);
      }
    }
  }

  // ----- The four kinds of step

  lemma StepOfThread(s: State, t: nat, c: Choice)
    requires Shape(s.shared.dev.bufferP) && t in s.threads
    ensures var s', r := Step(s, Go(t, c)), Act(s.shared, t, s.threads[t], c);
            s'.shared == r.0 && t in s'.threads && s'.threads[t] == r.1
  {
  }

  lemma StepOfOther(s: State, e: Event, u: nat)
    requires Shape(s.shared.dev.bufferP) && (e.Go? ==> e.t != u)
    ensures u in s.threads ==> u in Step(s, e).threads && Step(s, e).threads[u] == s.threads[u]
    ensures u in Step(s, e).threads && u !in s.threads ==> Step(s, e).threads[u].pc == AllocateBuffer
  {
  }

  /** A step of one thread leaves the others where they are. */
  lemma OtherThread(events: seq<Event>, u: nat)
    requires events != [] && u in RunServer(events).threads
    requires events[|events| - 1].Go? ==> events[|events| - 1].t != u
    ensures var s, th := RunServer(events[..|events| - 1]), RunServer(events).threads[u];
            if u in s.threads then th == s.threads[u] else Carried(th.pc) == None
  {
    StepOfOther(RunServer(events[..|events| - 1]), events[|events| - 1], u);
  }

  lemma KeptByOther(events: seq<Event>, u: nat, o: Origin, k: Others)
    requires events != [] && Traced(events[..|events| - 1], o, k)
    requires events[|events| - 1].Go? ==> events[|events| - 1].t != u
    requires u in RunServer(events).threads
    ensures CarriesOne(events, RunServer(events).threads[u], u, o, k)
  {
    var s, th := RunServer(events[..|events| - 1]), RunServer(events).threads[u];
    OtherThread(events, u);
    if Carried(th.pc).Some? {
      assert CarriesOne(events[..|events| - 1], s.threads[u], u, o, k);
      SameReceipts(events);
    }
  }

  lemma AccountedLonger(events: seq<Event>, r: nat, t: nat, o: Origin, k: Others, o': Origin, k': Others)
    requires events != [] && Traced(events[..|events| - 1], o, k)
    requires r < |events| - 1 && ReceivesMessage(events, r, t)
    requires r in o.from ==> r in o'.from
    requires r in k.lost ==> r in k'.lost && k'.lost[r] == k.lost[r]
    requires StillCarried(events[..|events| - 1], r, t, k) ==> Accounted(events, r, t, o', k')
    ensures Accounted(events, r, t, o', k')
  {
    SameEvents(events);
    assert ReceivesMessage(events[..|events| - 1], r, t);
    assert Accounted(events[..|events| - 1], r, t, o, k);
  }

  lemma TracedQuiet(events: seq<Event>, o: Origin, k: Others)
    requires events != [] && Traced(events[..|events| - 1], o, k)
    requires var e, s := events[|events| - 1], RunServer(events[..|events| - 1]);
             e.Go? && e.t in s.threads ==> Quiet(s.threads[e.t].pc, e.c)
    ensures Traced(events, o, k)
  {
    var n, before, e := |events| - 1, events[..|events| - 1], events[|events| - 1];
    var s, s' := RunServer(before), RunServer(events);
    LastStep(events);
    if e.Go? && e.t in s.threads {
      ActCarries(s.shared, e.t, s.threads[e.t], e.c);
    }
    OriginatesLonger(events, s.shared.messages, o);
    forall t | t in s'.threads ensures CarriesOne(events, s'.threads[t], t, o, k) {
      if e.Go? && e.t == t {
        SameReceipts(events);
      } else {
        KeptByOther(events, t, o, k);
      }
    }
    forall r: nat, t: nat | ReceivesMessage(events, r, t) ensures Accounted(events, r, t, o, k) {
      if !(e.Go? && e.t == t) && t in s'.threads {
        OtherThread(events, t);
      }
      AccountedLonger(events, r, t, o, k, o, k);
    }
  }

  // A message is received: its thread carries it.

  lemma ReceiveCarries(events: seq<Event>, o: Origin, k: Others, t: nat)
    requires events != [] && Traced(events[..|events| - 1], o, k)
    requires events[|events| - 1].Go? && ReceivesMessage(events, |events| - 1, events[|events| - 1].t)
    requires t in RunServer(events).threads
    ensures var k' := k.(carried := k.carried[events[|events| - 1].t := |events| - 1]);
            CarriesOne(events, RunServer(events).threads[t], t, o, k')
  {
    var n, before, e := |events| - 1, events[..|events| - 1], events[|events| - 1];
    var s := RunServer(before);
    if e.t == t {
      ActCarries(s.shared, t, s.threads[t], e.c);
      EarlierReceipts(before, s.shared.messages, o);
    } else {
      KeptByOther(events, t, o, k);
    }
  }

  lemma ReceiveAccounts(events: seq<Event>, o: Origin, k: Others, r: nat, t: nat)
    requires events != [] && Traced(events[..|events| - 1], o, k)
    requires events[|events| - 1].Go? && ReceivesMessage(events, |events| - 1, events[|events| - 1].t)
    requires ReceivesMessage(events, r, t)
    ensures var k' := k.(carried := k.carried[events[|events| - 1].t := |events| - 1]);
            Accounted(events, r, t, o, k')
  {
    var n, e := |events| - 1, events[|events| - 1];
    var s, k' := RunServer(events[..n]), k.(carried := k.carried[e.t := n]);
    if r == n {
      ActCarries(s.shared, t, s.threads[t], e.c);
      assert StillCarried(events, n, t, k');
    } else {
      if t != e.t {
        StepOfOther(s, e, t);
      }
      AccountedLonger(events, r, t, o, k, o, k');
    }
  }

  lemma TracedReceive(events: seq<Event>, o: Origin, k: Others) returns (k': Others)
    requires events != [] && Traced(events[..|events| - 1], o, k)
    requires events[|events| - 1].Go? && ReceivesMessage(events, |events| - 1, events[|events| - 1].t)
    ensures Traced(events, o, k')
  {
    var n, e := |events| - 1, events[|events| - 1];
    var s := RunServer(events[..n]);
    k' := k.(carried := k.carried[e.t := n]);
    ActCarries(s.shared, e.t, s.threads[e.t], e.c);
    OriginatesLonger(events, s.shared.messages, o);
    forall t | t in RunServer(events).threads ensures CarriesOne(events, RunServer(events).threads[t], t, o, k') {
      ReceiveCarries(events, o, k, t);
    }
    forall r: nat, t: nat | ReceivesMessage(events, r, t) ensures Accounted(events, r, t, o, k') {
      ReceiveAccounts(events, o, k, r, t);
    }
  }

  // A message is begun: it is the next one.

  /** Two threads carry different buffers. */
  lemma DifferentCarried(events: seq<Event>, o: Origin, k: Others, t: nat, u: nat)
    requires Traced(events, o, k) && t != u
    requires var s := RunServer(events);
             && t in s.threads && Carried(s.threads[t].pc).Some? && u in s.threads && Carried(s.threads[u].pc).Some?
    ensures t in k.carried && u in k.carried && k.carried[t] != k.carried[u]
  {
    var s := RunServer(events);
    assert CarriesOne(events, s.threads[t], t, o, k) && CarriesOne(events, s.threads[u], u, o, k);
  }

  /** A thread goes on carrying its buffer when another one, `x`, is begun or lost. */
  lemma StillCarriesOne(events: seq<Event>, th: Thread, u: nat, o: Origin, k: Others, o': Origin, k': Others, x: nat)
    requires events != [] && CarriesOne(events[..|events| - 1], th, u, o, k) && k'.carried == k.carried
    requires Carried(th.pc).Some? && u in k.carried ==> k.carried[u] != x
    requires forall r :: r in o'.from ==> r in o.from || r == x
    requires forall r :: r in k'.lost ==> r in k.lost || r == x
    ensures CarriesOne(events, th, u, o', k')
  {
    SameReceipts(events);
  }

  lemma OtherCarries(events: seq<Event>, th: Thread, o: Origin, k: Others, o': Origin, k': Others, t: nat, u: nat)
    requires events != [] && Traced(events[..|events| - 1], o, k) && t != u
    requires var s := RunServer(events[..|events| - 1]);
             && t in s.threads && Carried(s.threads[t].pc).Some?
             && if u in s.threads then th == s.threads[u] else Carried(th.pc) == None
    requires t in k.carried && k'.carried == k.carried
    requires forall r :: r in o'.from ==> r in o.from || r == k.carried[t]
    requires forall r :: r in k'.lost ==> r in k.lost || r == k.carried[t]
    ensures CarriesOne(events, th, u, o', k')
  {
    if Carried(th.pc).Some? {
      DifferentCarried(events[..|events| - 1], o, k, u, t);
      StillCarriesOne(events, th, u, o, k, o', k', k.carried[t]);
    }
  }

  lemma BeginCarries(events: seq<Event>, o: Origin, k: Others, o': Origin, u: nat)
    requires events != [] && Traced(events[..|events| - 1], o, k)
    requires events[|events| - 1].Go? && Begins(events, |events| - 1, events[|events| - 1].t)
    requires events[|events| - 1].t in k.carried && o'.from == o.from + [k.carried[events[|events| - 1].t]]
    requires u in RunServer(events).threads
    ensures CarriesOne(events, RunServer(events).threads[u], u, o', k)
  {
    var e, s := events[|events| - 1], RunServer(events[..|events| - 1]);
    if e.t == u {
      ActCarries(s.shared, u, s.threads[u], e.c);
      StepOfThread(s, u, e.c);
    } else {
      OtherThread(events, u);
      OtherCarries(events, RunServer(events).threads[u], o, k, o', k, e.t, u);
    }
  }

  lemma BeginAccounts(events: seq<Event>, o: Origin, k: Others, o': Origin, r: nat, t: nat)
    requires events != [] && Traced(events[..|events| - 1], o, k)
    requires events[|events| - 1].Go? && Begins(events, |events| - 1, events[|events| - 1].t)
    requires events[|events| - 1].t in k.carried && o'.from == o.from + [k.carried[events[|events| - 1].t]]
    requires ReceivesMessage(events, r, t)
    ensures Accounted(events, r, t, o', k)
  {
    var n, e := |events| - 1, events[|events| - 1];
    var s := RunServer(events[..n]);
    if t != e.t {
      StepOfOther(s, e, t);
    }
    AccountedLonger(events, r, t, o, k, o', k);
  }

  lemma TracedBegin(events: seq<Event>, o: Origin, k: Others) returns (o': Origin)
    requires events != [] && Traced(events[..|events| - 1], o, k)
    requires events[|events| - 1].Go? && Begins(events, |events| - 1, events[|events| - 1].t)
    ensures Traced(events, o', k)
  {
    var n, before, e := |events| - 1, events[..|events| - 1], events[|events| - 1];
    var s := RunServer(before);
    var text := Carried(s.threads[e.t].pc).value;
    assert CarriesOne(before, s.threads[e.t], e.t, o, k);
    o' := Origin(o.begun + [n], o.from + [k.carried[e.t]], o.author + [e.t]);
    ActCarries(s.shared, e.t, s.threads[e.t], e.c);
    OriginatesNext(events, s.shared.messages, o, k.carried[e.t], e.t, text);
    forall u | u in RunServer(events).threads ensures CarriesOne(events, RunServer(events).threads[u], u, o', k) {
      BeginCarries(events, o, k, o', u);
    }
    forall r: nat, t: nat | ReceivesMessage(events, r, t) ensures Accounted(events, r, t, o', k) {
      BeginAccounts(events, o, k, o', r, t);
    }
  }

  // A message is lost: its thread no longer carries it.

  lemma LoseCarries(events: seq<Event>, o: Origin, k: Others, k': Others, u: nat)
    requires events != [] && Traced(events[..|events| - 1], o, k)
    requires events[|events| - 1].Go? && LosesMessage(events, |events| - 1, events[|events| - 1].t)
    requires events[|events| - 1].t in k.carried
    requires k' == k.(lost := k.lost[k.carried[events[|events| - 1].t] := |events| - 1])
    requires u in RunServer(events).threads
    ensures CarriesOne(events, RunServer(events).threads[u], u, o, k')
  {
    var e, s := events[|events| - 1], RunServer(events[..|events| - 1]);
    if e.t == u {
      ActCarries(s.shared, u, s.threads[u], e.c);
      StepOfThread(s, u, e.c);
    } else {
      OtherThread(events, u);
      OtherCarries(events, RunServer(events).threads[u], o, k, o, k', e.t, u);
    }
  }

  lemma LoseAccounts(events: seq<Event>, o: Origin, k: Others, k': Others, r: nat, t: nat)
    requires events != [] && Traced(events[..|events| - 1], o, k)
    requires events[|events| - 1].Go? && LosesMessage(events, |events| - 1, events[|events| - 1].t)
    requires events[|events| - 1].t in k.carried && k.carried[events[|events| - 1].t] !in k.lost
    requires k' == k.(lost := k.lost[k.carried[events[|events| - 1].t] := |events| - 1])
    requires ReceivesMessage(events, r, t)
    ensures Accounted(events, r, t, o, k')
  {
    var n, e := |events| - 1, events[|events| - 1];
    var s := RunServer(events[..n]);
    if t != e.t {
      StepOfOther(s, e, t);
    }
    AccountedLonger(events, r, t, o, k, o, k');
  }

  lemma TracedLose(events: seq<Event>, o: Origin, k: Others) returns (k': Others)
    requires events != [] && Traced(events[..|events| - 1], o, k)
    requires events[|events| - 1].Go? && LosesMessage(events, |events| - 1, events[|events| - 1].t)
    ensures Traced(events, o, k')
  {
    var n, before, e := |events| - 1, events[..|events| - 1], events[|events| - 1];
    var s := RunServer(before);
    assert CarriesOne(before, s.threads[e.t], e.t, o, k);
    k' := k.(lost := k.lost[k.carried[e.t] := n]);
    ActCarries(s.shared, e.t, s.threads[e.t], e.c);
    OriginatesLonger(events, s.shared.messages, o);
    forall u | u in RunServer(events).threads ensures CarriesOne(events, RunServer(events).threads[u], u, o, k') {
      LoseCarries(events, o, k, k', u);
    }
    forall r: nat, t: nat | ReceivesMessage(events, r, t) ensures Accounted(events, r, t, o, k') {
      LoseAccounts(events, o, k, k', r, t);
    }
  }

  // ----- Every run

  /**
   In every run the messages are, one for each append begun and in mutex order, texts of different
   buffers received before; and every message received has been begun, is still to be appended by the
   thread that received it, or was lost when that thread failed to open the device.
   */
  lemma {:induction false} MessagesAreReceived(events: seq<Event>) returns (o: Origin, k: Others)
    ensures Traced(events, o, k)
  {
    o, k := Origin([], [], []), Others(map[], map[]);
    if events != [] {
      var n, e := |events| - 1, events[|events| - 1];
      o, k := MessagesAreReceived(events[..n]);
      var s := RunServer(events[..n]);
      if e.Go? && e.t in s.threads && !Quiet(s.threads[e.t].pc, e.c) {
        if s.threads[e.t].pc.AppendReset? {
          HolderBegins(events);
          o := TracedBegin(events, o, k);
        } else if s.threads[e.t].pc.AppendTest? {
          k := TracedLose(events, o, k);
        } else {
          k := TracedReceive(events, o, k);
        }
      } else {
        TracedQuiet(events, o, k);
      }
    }
  }

  lemma HolderBegins(events: seq<Event>)
    requires events != [] && events[|events| - 1].Go?
    requires var n, t := |events| - 1, events[|events| - 1].t;
             StepOf(events, n, t) && PcAt(events, n, t).AppendReset?
    ensures Begins(events, |events| - 1, events[|events| - 1].t)
  {
    RunInv(events[..|events| - 1]);
    assert InSection(PcAt(events, |events| - 1, events[|events| - 1].t));
  }

  // ----- What reaches the ring

  /** An append has met an error exactly if some flush failed. */
  lemma {:induction false} AbandonedIff(events: seq<Event>)
    ensures RunServer(events).shared.abandoned <==> exists e: nat, t: nat :: FailsToFlush(events, e, t)
  {
    if events != [] {
      var n, e := |events| - 1, events[|events| - 1];
      AbandonedIff(events[..n]);
      SameFailures(events);
      AbandonedStep(RunServer(events[..n]), e);
      if RunServer(events[..n]).shared.abandoned {
        var i: nat, t: nat :| FailsToFlush(events[..n], i, t);
        assert FailsToFlush(events, i, t);
      } else if RunServer(events).shared.abandoned {
        assert FailsToFlush(events, n, e.t);
      }
    }
  }

  lemma AbandonedStep(s: State, e: Event)
    requires Shape(s.shared.dev.bufferP)
    ensures Step(s, e).shared.abandoned <==>
            || s.shared.abandoned
            || (e.Go? && e.t in s.threads && s.threads[e.t].pc.Append? && s.threads[e.t].pc.rest != [] && e.c.Fails?)
  {
  }

  lemma SameFailures(events: seq<Event>)
    requires events != []
    ensures forall e: nat, t: nat :: e < |events| - 1 ==>
              (FailsToFlush(events, e, t) <==> FailsToFlush(events[..|events| - 1], e, t))
  {
    forall e | 0 <= e < |events| - 1
      ensures Before(events, e) == Before(events[..|events| - 1], e) && events[..|events| - 1][e] == events[e]
    {
      SameBefore(events, e);
    }
  }

  /** A line of text: no 0, and the only newline is the last byte. */
  predicate SingleLine(bytes: seq<byte>) {
    bytes != [] && (forall i :: 0 <= i < |bytes| ==> bytes[i] != 0) && (forall i :: 0 <= i < |bytes| ==> (bytes[i] == NEWLINE <==> i == |bytes| - 1))
  }

  lemma SingleLineText(bytes: seq<byte>, text: seq<byte>)
    requires SingleLine(bytes) && TextOf(bytes, text)
    ensures text == bytes && text != [] && Complete(text)
  {
    FirstEolUnique(bytes, |bytes| - 1);
  }

  /** With event r these bytes were received. */
  predicate SentAs(events: seq<Event>, r: nat, bytes: seq<byte>) {
    r < |events| && events[r].Go? && events[r].c.Received? && events[r].c.bytes == bytes
  }

  /**
   If the messages that clients sent were single lines and no flush failed, the ring is the last ten
   buffers received, in the order in which the mutex admitted their threads, byte for byte; one that is
   being appended is not visible before its last byte.
   */
  lemma RingIsLastTenSent(events: seq<Event>) returns (o: Origin, sent: seq<seq<byte>>)
    requires forall r: nat, t: nat :: ReceivesMessage(events, r, t) ==> SingleLine(events[r].c.bytes)
    requires forall e: nat, t: nat :: !FailsToFlush(events, e, t)
    ensures Originates(events, sent, o) && forall i :: 0 <= i < |sent| ==> SentAs(events, o.from[i], sent[i])
    ensures var s := RunServer(events); var g := s.shared; var n := |sent|;
            && (Unwritten(s) == [] ==> Contents(View(g.dev)) == LastTen(sent) && Pending(g.dev) == [])
            && (Unwritten(s) != [] ==>
                  && n > 0 && Contents(View(g.dev)) == LastTen(sent[..n - 1])
                  && Pending(g.dev) + Unwritten(s) == sent[n - 1])
  {
    var k;
    sent := RunServer(events).shared.messages;
    o, k := MessagesAreReceived(events);
    forall i | 0 <= i < |sent| ensures SentAs(events, o.from[i], sent[i]) && sent[i] != [] && Complete(sent[i]) {
      assert BegunAfterReceipt(events, o, i, sent[i]);
      SingleLineText(events[o.from[i]].c.bytes, sent[i]);
    }
    AbandonedIff(events);
    RingIsLastTenMessages(events);
  }
}
