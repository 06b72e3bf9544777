/**
 What is committed: conservation of bytes, independence of the way a stream is cut into writes, the
 shape of committed entries, and the pending entry that can never be committed.
 */
module Commits {
  import opened CircularBuffer
  import opened Kernel
  import opened DeviceSpec
  import opened Ownership
  import opened LineHistory

  function Concat(ss: seq<seq<byte>>): seq<byte> {
    if ss == [] then [] else Concat(ss[..|ss| - 1]) + ss[|ss| - 1]
  }

  lemma {:induction false} ConcatAppend(a: seq<seq<byte>>, b: seq<seq<byte>>)
    ensures Concat(a + b) == Concat(a) + Concat(b)
  {
    if b == [] {
      assert a + b == a;
    } else {
      ConcatAppend(a, b[..|b| - 1]);
      assert (a + b)[..|a + b| - 1] == a + b[..|b| - 1];
    }
  }

  /** The run that writes the chunks one after the other. */
  function Writes(chunks: seq<seq<byte>>): (ops: seq<Op>)
    ensures |ops| == |chunks|
    ensures forall i :: 0 <= i < |ops| ==> ops[i] == OpWrite(chunks[i], Copied)
  {
    seq(|chunks|, i requires 0 <= i < |chunks| => OpWrite(chunks[i], Copied))
  }

  lemma WritesSnoc(chunks: seq<seq<byte>>)
    requires chunks != []
    ensures var before, chunk := chunks[..|chunks| - 1], chunks[|chunks| - 1];
            JournalOf(Writes(chunks)) == Feed(JournalOf(Writes(before)), chunk)
  {
    assert Writes(chunks)[..|chunks| - 1] == Writes(chunks[..|chunks| - 1]);
  }

  lemma {:induction false} WritesArmed(ops: seq<Op>)
    requires forall i :: 0 <= i < |ops| ==> ops[i].OpWrite?
    ensures ArmedAfter(ops)
  {
    if ops != [] {
      WritesArmed(ops[..|ops| - 1]);
    }
  }

  lemma WritesTracked(chunks: seq<seq<byte>>)
    ensures Tracks(Run(INITIAL_DEV, Writes(chunks)), JournalOf(Writes(chunks)))
    ensures NoLeak(Run(INITIAL_DEV, Writes(chunks)))
  {
    var ops := Writes(chunks);
    forall i | 0 <= i < |ops| ensures ArmedAfter(ops[..i]) {
      WritesArmed(ops[..i]);
    }
    DisciplinedRun(ops);
  }

  // ----- The cursor over runs of writes

  /** The cursor is on the oldest entry. */
  predicate AtOldest(d: Dev) {
    d.bufferP.outOffs == if d.bufferP.full then d.bufferP.inOffs else 0
  }

  lemma WriteKeepsOldest(d: Dev, chunk: seq<byte>)
    requires Shape(d.bufferP) && AtOldest(d)
    ensures AtOldest(Write(d, chunk, Copied)) && Write(d, chunk, Copied).readCounter == d.readCounter
  {
  }

  /** Without reads the cursor stays on the oldest entry and the read counter at 0. */
  lemma {:induction false} WritesAtOldest(chunks: seq<seq<byte>>)
    ensures AtOldest(Run(INITIAL_DEV, Writes(chunks))) && Run(INITIAL_DEV, Writes(chunks)).readCounter == 0
  {
    if chunks != [] {
      var before, chunk := chunks[..|chunks| - 1], chunks[|chunks| - 1];
      WritesAtOldest(before);
      assert Writes(chunks)[..|chunks| - 1] == Writes(before);
      WriteKeepsOldest(Run(INITIAL_DEV, Writes(before)), chunk);
    }
  }

  // ----- Conservation

  lemma {:induction false} JournalConserves(chunks: seq<seq<byte>>)
    ensures var j := JournalOf(Writes(chunks)); Concat(j.lines) + j.pending == Concat(chunks)
  {
    if chunks != [] {
      var before, chunk := chunks[..|chunks| - 1], chunks[|chunks| - 1];
      JournalConserves(before);
      WritesSnoc(chunks);
      var j := JournalOf(Writes(before));
      assert Concat(j.lines + [j.pending + chunk]) == Concat(j.lines) + (j.pending + chunk);
    }
  }

  /** What a write makes the device drop: the evicted entry when it commits into a full ring. */
  function DropsBy(d: Dev, chunk: seq<byte>): seq<seq<byte>>
    requires Shape(d.bufferP)
  {
    var a := Accumulate(d, chunk);
    if Complete(Pending(a)) && Evicted(View(a)).Some? then [Evicted(View(a)).value] else []
  }

  lemma DropsOldest(d: Dev, j: Journal, chunk: seq<byte>)
    requires Tracks(d, j)
    ensures DropsBy(d, chunk) ==
            if Complete(j.pending + chunk) && |j.lines| >= CAPACITY then [j.lines[|j.lines| - CAPACITY]] else []
  {
    AccumulateSteps(d, chunk);
    EvictedIsOldest(View(d), j.lines, []);
  }

  /** The committed entries the device has dropped, oldest first, over a run of writes. */
  function Dropped(chunks: seq<seq<byte>>): seq<seq<byte>> {
    if chunks == [] then [] else
    var before := chunks[..|chunks| - 1];
    Dropped(before) + DropsBy(Run(INITIAL_DEV, Writes(before)), chunks[|chunks| - 1])
  }

  function AllButLastTen<T>(h: seq<T>): seq<T> {
    if |h| <= CAPACITY then [] else h[..|h| - CAPACITY]
  }

  lemma AllButLastTenSnoc<T>(h: seq<T>, x: T)
    ensures AllButLastTen(h + [x]) ==
            AllButLastTen(h) + if |h| >= CAPACITY then [h[|h| - CAPACITY]] else []
    ensures AllButLastTen(h) + LastTen(h) == h
  {
  }

  lemma NextDrop(chunks: seq<seq<byte>>)
    requires chunks != []
    ensures var before, chunk := chunks[..|chunks| - 1], chunks[|chunks| - 1];
            var j := JournalOf(Writes(before));
            && JournalOf(Writes(chunks)) == Feed(j, chunk)
            && DropsBy(Run(INITIAL_DEV, Writes(before)), chunk) ==
               if Complete(j.pending + chunk) && |j.lines| >= CAPACITY then [j.lines[|j.lines| - CAPACITY]] else []
  {
    var before, chunk := chunks[..|chunks| - 1], chunks[|chunks| - 1];
    WritesTracked(before);
    DropsOldest(Run(INITIAL_DEV, Writes(before)), JournalOf(Writes(before)), chunk);
    WritesSnoc(chunks);
  }

  lemma {:induction false} DroppedIsOldest(chunks: seq<seq<byte>>)
    ensures Dropped(chunks) == AllButLastTen(JournalOf(Writes(chunks)).lines)
  {
    if chunks != [] {
      var before, chunk := chunks[..|chunks| - 1], chunks[|chunks| - 1];
      DroppedIsOldest(before);
      NextDrop(chunks);
      var j := JournalOf(Writes(before));
      AllButLastTenSnoc(j.lines, j.pending + chunk);
    }
  }

  /**
   However the chunks are cut and wherever newlines fall in them: what was dropped, then the ring
   from oldest to newest, then the pending entry, are exactly the bytes written so far.
   */
  lemma BytesConserved(chunks: seq<seq<byte>>)
    ensures var d := Run(INITIAL_DEV, Writes(chunks));
            && Shape(View(d))
            && Concat(Dropped(chunks)) + Concat(Contents(View(d))) + Pending(d) == Concat(chunks)
  {
    var lines := JournalOf(Writes(chunks)).lines;
    WritesTracked(chunks);
    assert Contents(View(Run(INITIAL_DEV, Writes(chunks)))) == LastTen(lines);
    DroppedIsOldest(chunks);
    JournalConserves(chunks);
    ConcatAppend(Dropped(chunks), LastTen(lines));
    AllButLastTenSnoc(lines, []);
  }

  // ----- Independence of the chunking

  /** `j` cuts the stream after each of its newlines: the lines, and what follows the last newline. */
  ghost predicate SplitsInto(s: seq<byte>, j: Journal) {
    && (forall i :: 0 <= i < |j.lines| ==> j.lines[i] != [] && Complete(j.lines[i]))
    && NoEol(j.pending, 0, |j.pending|)
    && Concat(j.lines) + j.pending == s
  }

  /** A non-empty chunk with no newline before its last byte. */
  predicate LineChunk(c: seq<byte>) { c != [] && NoEol(c, 0, |c| - 1) }

  lemma FirstEolOfPrefix(s: seq<byte>, c: seq<byte>)
    requires FirstEol(s) != -1
    ensures FirstEol(s + c) == FirstEol(s)
  {
    FirstEolUnique(s + c, FirstEol(s));
  }

  lemma SplitHead(s: seq<byte>, j: Journal)
    requires SplitsInto(s, j)
    ensures FirstEol(s) == if j.lines == [] then -1 else |j.lines[0]| - 1
    ensures j.lines != [] ==>
              var n := |j.lines[0]|;
              n <= |s| && s[..n] == j.lines[0] && SplitsInto(s[n..], Journal(j.lines[1..], j.pending))
  {
    if j.lines == [] {
      assert s == j.pending;
    } else {
      var line, rest := j.lines[0], Concat(j.lines[1..]) + j.pending;
      assert j.lines == [line] + j.lines[1..];
      ConcatAppend([line], j.lines[1..]);
      assert Concat([line]) == line;
      assert s == line + rest;
      FirstEolOfPrefix(line, rest);
    }
  }

  /** There is only one way to split a stream into lines. */
  lemma {:induction false} SplitUnique(s: seq<byte>, j: Journal, j': Journal)
    requires SplitsInto(s, j) && SplitsInto(s, j')
    ensures j == j'
    decreases |j.lines|
  {
    SplitHead(s, j);
    SplitHead(s, j');
    if j.lines != [] {
      var n := |j.lines[0]|;
      SplitUnique(s[n..], Journal(j.lines[1..], j.pending), Journal(j'.lines[1..], j'.pending));
      assert j.lines == [j.lines[0]] + j.lines[1..] && j'.lines == [j'.lines[0]] + j'.lines[1..];
    } else {
      assert j'.lines == [];
      assert j.pending == s == j'.pending;
    }
  }

  lemma LineChunkFed(pending: seq<byte>, c: seq<byte>)
    requires NoEol(pending, 0, |pending|) && LineChunk(c)
    ensures Complete(pending + c) || NoEol(pending + c, 0, |pending + c|)
  {
    var t, last := pending + c, |pending + c| - 1;
    assert NoEol(t, 0, last);
    if t[last] == NEWLINE {
      FirstEolUnique(t, last);
    }
  }

  lemma {:induction false} LineChunksSplitStream(chunks: seq<seq<byte>>)
    requires forall i :: 0 <= i < |chunks| ==> LineChunk(chunks[i])
    ensures SplitsInto(Concat(chunks), JournalOf(Writes(chunks)))
  {
    JournalConserves(chunks);
    if chunks != [] {
      var before := chunks[..|chunks| - 1];
      LineChunksSplitStream(before);
      WritesSnoc(chunks);
      LineChunkFed(JournalOf(Writes(before)).pending, chunks[|chunks| - 1]);
    }
  }

  /** Written line by line, the ring is the last ten lines of the stream, and the rest is pending. */
  lemma RingIsLastTenLines(chunks: seq<seq<byte>>, j: Journal)
    requires forall i :: 0 <= i < |chunks| ==> LineChunk(chunks[i])
    requires SplitsInto(Concat(chunks), j)
    ensures var d := Run(INITIAL_DEV, Writes(chunks));
            && Shape(View(d))
            && Contents(View(d)) == LastTen(j.lines)
            && Pending(d) == j.pending
            && (d.bufferP.full <==> |j.lines| >= CAPACITY)
            && d.bufferP.inOffs == |j.lines| % CAPACITY
  {
    WritesTracked(chunks);
    LineChunksSplitStream(chunks);
    SplitUnique(Concat(chunks), j, JournalOf(Writes(chunks)));
  }

  /** Two ways of cutting one stream at or between its newlines leave the same contents, indices and flag. */
  lemma ChunkingIrrelevant(a: seq<seq<byte>>, b: seq<seq<byte>>)
    requires forall i :: 0 <= i < |a| ==> LineChunk(a[i])
    requires forall i :: 0 <= i < |b| ==> LineChunk(b[i])
    requires Concat(a) == Concat(b)
    ensures var d, d' := Run(INITIAL_DEV, Writes(a)), Run(INITIAL_DEV, Writes(b));
            && Shape(View(d)) && Shape(View(d'))
            && Contents(View(d)) == Contents(View(d')) && Pending(d) == Pending(d')
            && View(d).(slot := []) == View(d').(slot := [])
  {
    WritesAtOldest(a);
    WritesAtOldest(b);
    LineChunksSplitStream(b);
    RingIsLastTenLines(a, JournalOf(Writes(b)));
    WritesTracked(b);
  }

  // ----- What commits

  /** The entry commits exactly when it is empty or ends in its only newline. */
  lemma CompleteIff(data: seq<byte>)
    ensures Complete(data) <==> data == [] || (multiset(data)[NEWLINE] == 1 && data[|data| - 1] == NEWLINE)
  {
    if data != [] {
      var init, last := data[..|data| - 1], data[|data| - 1];
      assert data == init + [last];
      assert multiset(data) == multiset(init) + multiset{last};
      assert NEWLINE in multiset(init) <==> NEWLINE in init;
      if last == NEWLINE && NEWLINE !in init {
        assert forall k :: 0 <= k < |init| ==> data[k] == init[k];
        FirstEolUnique(data, |data| - 1);
      }
    }
  }

  ghost predicate SlotsComplete(d: Dev) {
    forall i :: 0 <= i < |View(d).slot| ==> Complete(View(d).slot[i])
  }

  lemma StepSlotsComplete(d: Dev, op: Op)
    requires Owned(d) && SlotsComplete(d)
    ensures SlotsComplete(Apply(d, op))
  {
    match op
    case OpOpen => CursorMoves(d, Apply(d, op));
    case OpRead(_, _, _) => CursorMoves(d, Apply(d, op));
    case OpWrite(_, Faulted(landed)) => WriteFaultSteps(d, landed);
    case OpWrite(chunk, Copied) =>
      var a := Accumulate(d, chunk);
      AccumulateSteps(d, chunk);
      if Complete(Pending(a)) {
        CommitView(a);
      }
  }

  /** In every reachable state, every stored entry ends in its only newline. */
  lemma {:induction false} StoredEntriesAreLines(ops: seq<Op>, i: nat)
    requires i < CAPACITY
    ensures var line := View(Run(INITIAL_DEV, ops)).slot[i];
            line != [] ==> multiset(line)[NEWLINE] == 1 && line[|line| - 1] == NEWLINE
  {
    RunSlotsComplete(ops);
    CompleteIff(View(Run(INITIAL_DEV, ops)).slot[i]);
  }

  lemma {:induction false} RunSlotsComplete(ops: seq<Op>)
    ensures SlotsComplete(Run(INITIAL_DEV, ops))
  {
    if ops == [] {
      InitialOwned();
    } else {
      RunOwned(ops[..|ops| - 1]);
      RunSlotsComplete(ops[..|ops| - 1]);
      StepSlotsComplete(Run(INITIAL_DEV, ops[..|ops| - 1]), ops[|ops| - 1]);
    }
  }

  /** The pending entry has a newline before its last byte. */
  predicate Stuck(pending: seq<byte>) { FirstEol(pending) != -1 && !Complete(pending) }

  lemma StuckGrows(pending: seq<byte>, chunk: seq<byte>)
    requires Stuck(pending)
    ensures Stuck(pending + chunk)
  {
    FirstEolOfPrefix(pending, chunk);
  }

  lemma StuckStep(d: Dev, op: Op)
    requires Owned(d) && Stuck(Pending(d))
    ensures var d' := Apply(d, op);
            && Owned(d') && Stuck(Pending(d')) && Pending(d) <= Pending(d')
            && View(d') == View(d).(outOffs := d'.bufferP.outOffs)
  {
    ApplyOwned(d, op);
    match op
    case OpOpen => CursorMoves(d, Apply(d, op));
    case OpRead(_, _, _) => CursorMoves(d, Apply(d, op));
    case OpWrite(chunk, Copied) =>
      AccumulateSteps(d, chunk);
      StuckGrows(Pending(d), chunk);
    case OpWrite(_, Faulted(landed)) => WriteFaultSteps(d, landed);
  }

  /**
   Once the pending entry holds a newline that is not its last byte, no later operation commits
   anything: the pending entry only grows and the ring's contents are final.
   */
  lemma {:induction false} StuckForever(d: Dev, ops: seq<Op>)
    requires Owned(d) && Stuck(Pending(d))
    ensures var d' := Run(d, ops);
            && Owned(d') && Stuck(Pending(d')) && Pending(d) <= Pending(d')
            && View(d') == View(d).(outOffs := d'.bufferP.outOffs)
  {
    if ops != [] {
      StuckForever(d, ops[..|ops| - 1]);
      StuckStep(Run(d, ops[..|ops| - 1]), ops[|ops| - 1]);
    }
  }
}
