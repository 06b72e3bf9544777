/**
 Readers among other users of the device: what a single read gives, and what an open and the writes of
 others do to a cursor in the middle of a drain.
 */
module Reading {
  import opened CircularBuffer
  import opened Kernel
  import opened DeviceSpec
  import opened Ownership
  import opened OffsetSearch
  import opened Commits
  import opened Draining

  // ----- One read

  /** The read changes at most the cursor and the counter, and leaves them as said. */
  predicate Leaves(d: Dev, d': Dev, outOffs: nat, readCounter: nat) {
    d' == Dev(d.entry, d.bufferP.(outOffs := outOffs), readCounter, d.heap)
  }

  /** Nothing is stored at the cursor, or the counter has reached ten: the read returns 0. */
  lemma ReadOfNothing(d: Dev, fPos: nat, count: nat, copied: bool)
    requires Owned(d) && (CurrentEntry(d) == [] || d.readCounter == 10)
    ensures var r := Read(d, fPos, count, copied);
            && r.retval == 0 && r.data == [] && r.fPos == fPos
            && Leaves(d, r.dev, d.bufferP.outOffs, if CurrentEntry(d) == [] then d.readCounter else 0)
  {
    assert Denotes(d.heap, d.bufferP.slot[d.bufferP.outOffs]);
  }

  /** The copy fails, or the position is past the entry: an error, and nothing changes. */
  lemma ReadRefused(d: Dev, fPos: nat, count: nat, copied: bool)
    requires Owned(d) && CurrentEntry(d) != [] && d.readCounter != 10 && (!copied || fPos > |CurrentEntry(d)|)
    ensures Read(d, fPos, count, copied) == ReadResult(d, fPos, EFAULT, [])
  {
    assert Denotes(d.heap, d.bufferP.slot[d.bufferP.outOffs]);
  }

  /**
   Every other read returns the number of bytes it copied, which is the request cut at what is left of
   the entry, and these bytes from the entry's start; it moves on exactly if the request went past the
   entry's end.
   */
  lemma ReadReturnsLength(d: Dev, fPos: nat, count: nat)
    requires Owned(d) && CurrentEntry(d) != [] && d.readCounter != 10 && fPos <= |CurrentEntry(d)|
    ensures var e, r := CurrentEntry(d), Read(d, fPos, count, true);
            && r.retval == |r.data| == Min(count, |e| - fPos) && r.data == e[..Min(count, |e| - fPos)]
            && r.fPos == (if fPos + count > |e| then 0 else fPos + count)
            && Leaves(d, r.dev, if fPos + count > |e| then (d.bufferP.outOffs + 1) % 10 else d.bufferP.outOffs,
                      d.readCounter + 1)
  {
    assert Denotes(d.heap, d.bufferP.slot[d.bufferP.outOffs]);
  }

  /**
   The size is fetched before the lock is taken. Where the cursor has been moved in between, the old
   size decides how much is returned and whether to move on, and the bytes are those of the new entry.
   */
  lemma ReadUsesFetchedSize(d: Dev, fPos: nat, count: nat, size: nat)
    requires Owned(d) && size > 0 && d.readCounter != 10 && fPos <= size
    ensures var e, r := CurrentEntry(d), ReadLocked(d, fPos, count, size, true);
            && r.retval == Min(count, size - fPos) && r.data == e[..Min(r.retval, |e|)]
            && Leaves(d, r.dev, if fPos + count > size then (d.bufferP.outOffs + 1) % 10 else d.bufferP.outOffs,
                      d.readCounter + 1)
  {
  }

  // ----- Return values along a drain

  /** The return value of the read after `i` reads. */
  function ReturnValue(p: Drained, count: nat, i: nat): int
    requires Shape(p.dev.bufferP)
    decreases i
  {
    if i == 0 then Read(p.dev, p.fPos, count, true).retval else ReturnValue(ReadOnce(p, count), count, i - 1)
  }

  /** `size` bytes in parts of `count`, and what is left. */
  function Parts(size: nat, count: nat): (s: seq<nat>)
    requires count > 0
    ensures |s| == FullReads(size, count) + 1
  {
    if size < count then [size] else [count] + Parts(size - count, count)
  }

  function Sum(s: seq<nat>): nat {
    if s == [] then 0 else s[0] + Sum(s[1..])
  }

  lemma {:induction false} PartsAre(size: nat, count: nat)
    requires count > 0
    ensures var s := Parts(size, count); var n := |s| - 1;
            && Sum(s) == size && n == size / count && s[n] == size % count
            && forall i :: 0 <= i < n ==> s[i] == count
  {
    FullReadsIs(size, count);
    if size >= count {
      PartsAre(size - count, count);
      assert Parts(size, count)[1..] == Parts(size - count, count);
      RemainderLess(size, count);
    } else {
      assert [size][1..] == [];
    }
  }

  lemma RemainderLess(x: nat, c: nat)
    requires 0 < c <= x
    ensures x % c == (x - c) % c
  {
    DivideLess(x, c);
    assert c * (x / c) == c * ((x - c) / c) + c;
  }

  lemma FirstValue(p: Drained, count: nat)
    requires Owned(p.dev) && count > 0 && CurrentEntry(p.dev) != [] && p.fPos <= |CurrentEntry(p.dev)|
    requires p.dev.readCounter < 10
    ensures ReturnValue(p, count, 0) == Parts(|CurrentEntry(p.dev)| - p.fPos, count)[0]
  {
    ReadReturnsLength(p.dev, p.fPos, count);
  }

  lemma LaterValue(p: Drained, count: nat, i: nat)
    requires Owned(p.dev) && count > 0 && p.fPos + count <= |CurrentEntry(p.dev)| && p.dev.readCounter < 10
    ensures ReturnValue(p, count, i + 1) == ReturnValue(StayedOn(p, count), count, i)
  {
    ReadStays(p, count);
  }

  /** The reads of an entry return what is left of it in parts of the request. */
  lemma {:induction false} EntryReturnValues(p: Drained, count: nat, i: nat)
    requires Owned(p.dev) && count > 0 && CurrentEntry(p.dev) != [] && p.fPos <= |CurrentEntry(p.dev)|
    requires i <= FullReads(|CurrentEntry(p.dev)| - p.fPos, count) && p.dev.readCounter + i < 10
    ensures ReturnValue(p, count, i) == Parts(|CurrentEntry(p.dev)| - p.fPos, count)[i]
    decreases i
  {
    if i == 0 {
      FirstValue(p, count);
    } else {
      ReadStays(p, count);
      LaterValue(p, count, i - 1);
      EntryReturnValues(StayedOn(p, count), count, i - 1);
    }
  }

  lemma WholeEntryValues(d: Dev, count: nat, i: nat)
    requires Owned(d) && count > 0 && CurrentEntry(d) != [] && i <= |CurrentEntry(d)| / count && d.readCounter + i < 10
    ensures ReturnValue(Drained(d, 0, []), count, i) ==
            if i < |CurrentEntry(d)| / count then count else |CurrentEntry(d)| % count
  {
    PartsAre(|CurrentEntry(d)|, count);
    EntryReturnValues(Drained(d, 0, []), count, i);
  }

  /** In every reachable state, while the counter allows: the current entry, from its start. */
  lemma DrainReturnValues(ops: seq<Op>, count: nat, i: nat)
    requires count > 0
    requires var d := Run(INITIAL_DEV, ops);
             CurrentEntry(d) != [] && i <= |CurrentEntry(d)| / count && d.readCounter + i < 10
    ensures var d := Run(INITIAL_DEV, ops);
            ReturnValue(Drained(d, 0, []), count, i) ==
            if i < |CurrentEntry(d)| / count then count else |CurrentEntry(d)| % count
  {
    RunOwned(ops);
    WholeEntryValues(Run(INITIAL_DEV, ops), count, i);
  }

  // ----- Open

  /** An open of a full ring leaves a reader where it is; any other starts again at the first physical slot. */
  lemma OpenFromCursor(d: Dev)
    requires Owned(d)
    ensures Owned(Open(d)) && Pending(Open(d)) == Pending(d) && Open(d).readCounter == d.readCounter
    ensures FromCursor(Open(d)) == if d.bufferP.full then FromCursor(d) else View(d).slot
    ensures View(Open(d)).slot == View(d).slot
  {
    CursorMoves(d, Open(d));
  }

  // ----- Commits in the middle of a drain

  lemma FromCursorIsFromOut(d: Dev)
    requires Shape(d.bufferP)
    ensures FromCursor(d) == FromOut(View(d))
  {
    forall j | 0 <= j < CAPACITY ensures FromCursor(d)[j] == FromOut(View(d))[j] {
      FromOutAt(View(d), j);
    }
  }

  /** No write touches the read counter, and only one that commits to a full ring moves the cursor, by one. */
  lemma WriteLeavesReader(d: Dev, chunk: seq<byte>, copy: Copy)
    requires Owned(d)
    ensures var d' := Write(d, chunk, copy);
            && d'.readCounter == d.readCounter
            && d'.bufferP.outOffs == if copy.Copied? && Complete(Pending(d) + chunk) && d.bufferP.full
                                     then (d.bufferP.outOffs + 1) % 10 else d.bufferP.outOffs
  {
    AccumulateSteps(d, chunk);
  }

  lemma LineWritten(d: Dev, line: seq<byte>)
    requires Owned(d) && Pending(d) == [] && Complete(line)
    ensures var d' := Write(d, line, Copied);
            Owned(d') && Pending(d') == [] && View(d') == Add(View(d), line) && d'.readCounter == d.readCounter
  {
    var a := Accumulate(d, line);
    AccumulateSteps(d, line);
    assert [] + line == line;
    CommitOwned(a);
    CommitView(a);
  }

  /** What whole lines leave behind. */
  ghost predicate AfterLines(d: Dev, d': Dev, lines: seq<seq<byte>>)
    requires Shape(d.bufferP)
  {
    && Owned(d') && Pending(d') == [] && d'.readCounter == d.readCounter
    && View(d') == AddAll(View(d), lines)
  }

  lemma OneMoreLine(d: Dev, d': Dev, lines: seq<seq<byte>>, line: seq<byte>)
    requires Shape(d.bufferP) && AfterLines(d, d', lines) && Complete(line)
    ensures AfterLines(d, Apply(d', OpWrite(line, Copied)), lines + [line])
  {
    LineWritten(d', line);
    assert (lines + [line])[..|lines|] == lines;
  }

  lemma RunNext(d: Dev, ops: seq<Op>, op: Op)
    requires Shape(d.bufferP)
    ensures Run(d, ops + [op]) == Apply(Run(d, ops), op)
  {
    assert (ops + [op])[..|ops|] == ops;
  }

  lemma WritesAppended(lines: seq<seq<byte>>, line: seq<byte>)
    ensures Writes(lines + [line]) == Writes(lines) + [OpWrite(line, Copied)]
  {
  }

  lemma WritesNext(d: Dev, lines: seq<seq<byte>>, line: seq<byte>)
    requires Shape(d.bufferP)
    ensures Run(d, Writes(lines + [line])) == Apply(Run(d, Writes(lines)), OpWrite(line, Copied))
  {
    WritesAppended(lines, line);
    RunNext(d, Writes(lines), OpWrite(line, Copied));
  }

  lemma {:induction false} LinesWritten(d: Dev, lines: seq<seq<byte>>)
    requires Owned(d) && Pending(d) == [] && forall i :: 0 <= i < |lines| ==> Complete(lines[i])
    ensures AfterLines(d, Run(d, Writes(lines)), lines)
  {
    if lines != [] {
      var before, line := lines[..|lines| - 1], lines[|lines| - 1];
      assert lines == before + [line];
      LinesWritten(d, before);
      WritesNext(d, before, line);
      OneMoreLine(d, Run(d, Writes(before)), before, line);
    }
  }

  /** Whole lines move the indices as additions do, wherever the cursor is, and do not touch the counter. */
  lemma CommitsMoveCursor(d: Dev, lines: seq<seq<byte>>)
    requires Owned(d) && Pending(d) == [] && forall i :: 0 <= i < |lines| ==> Complete(lines[i])
    ensures var d' := Run(d, Writes(lines));
            && Shape(View(d)) && MovedBy(View(d), View(d'), |lines|) && d'.readCounter == d.readCounter
  {
    LinesWritten(d, lines);
    AddRunIndices(View(d), lines);
  }

  /**
   On a full ring, k lines committed in the middle of a drain make the reader skip exactly the k entries
   that follow its position, the new ones included.
   */
  lemma CommitsSkip(d: Dev, lines: seq<seq<byte>>)
    requires Owned(d) && Pending(d) == [] && d.bufferP.full && forall i :: 0 <= i < |lines| ==> Complete(lines[i])
    ensures var d', n := Run(d, Writes(lines)), Unread(d.bufferP);
            && FromCursor(d')[..n] == (FromCursor(d)[..n] + lines)[|lines|..]
            && CurrentEntry(d') == (FromCursor(d)[..n] + lines)[|lines|]
  {
    var d', n := Run(d, Writes(lines)), Unread(d.bufferP);
    LinesWritten(d, lines);
    AdditionsSkip(View(d), lines);
    assert Unread(View(d)) == n && View(d).full;
    FromCursorIsFromOut(d);
    FromCursorIsFromOut(d');
    assert CurrentEntry(d') == FromCursor(d')[..n][0];
  }
}
