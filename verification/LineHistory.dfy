/**
 What the device remembers: the history of committed entries as a function of the writes alone, and
 when the shared cursor lets the ring be the last ten of them.
 */
module LineHistory {
  import opened CircularBuffer
  import opened Kernel
  import opened DeviceSpec
  import opened Ownership

  // ----- The history a run should leave behind, computed from its writes alone

  datatype Journal = Journal(lines: seq<seq<byte>>, pending: seq<byte>)

  function Feed(j: Journal, chunk: seq<byte>): Journal {
    var data := j.pending + chunk;
    if Complete(data) then Journal(j.lines + [data], []) else Journal(j.lines, data)
  }

  function Record(j: Journal, op: Op): Journal {
    match op
    case OpWrite(chunk, Copied) => Feed(j, chunk)
    case OpWrite(_, Faulted(landed)) => if j.pending == [] then Journal(j.lines, landed) else j
    case _ => j
  }

  function JournalOf(ops: seq<Op>): Journal {
    if ops == [] then Journal([], []) else Record(JournalOf(ops[..|ops| - 1]), ops[|ops| - 1])
  }

  /** The device holds the last ten of `j.lines` and the pending bytes of `j`. */
  ghost predicate Tracks(d: Dev, j: Journal) {
    && Owned(d)
    && Holds(View(d), j.lines, [])
    && Pending(d) == j.pending
    && d.entry.buffptr != ZERO_SIZE_PTR
    && (!d.bufferP.full ==> forall i :: d.bufferP.inOffs <= i < CAPACITY ==> d.bufferP.slot[i] == BLANK)
  }

  // ----- One operation

  lemma FeedTracked(d: Dev, j: Journal, chunk: seq<byte>)
    requires Tracks(d, j) && FullTestCorrect(d.bufferP)
    ensures Tracks(Write(d, chunk, Copied), Feed(j, chunk))
    ensures NoLeak(d) ==> NoLeak(Write(d, chunk, Copied))
  {
    var a, data := Accumulate(d, chunk), j.pending + chunk;
    AccumulateSteps(d, chunk);
    if Complete(data) {
      CommitOwned(a);
      CommitView(a);
      AddKeepsHoldsIff(View(a), j.lines, data, []);
      if NoLeak(d) {
        CommitLeaksIff(a);
      }
    } else {
      assert data != [];
    }
  }

  /**
   A committing write keeps the ring equal to the last ten entries exactly when the cursor, which
   reads also move, lets the driver recognise the tenth entry.
   */
  lemma CommitTrackedIff(d: Dev, j: Journal, chunk: seq<byte>)
    requires Tracks(d, j) && Complete(j.pending + chunk)
    ensures Tracks(Write(d, chunk, Copied), Feed(j, chunk)) <==> FullTestCorrect(d.bufferP)
  {
    if FullTestCorrect(d.bufferP) {
      FeedTracked(d, j, chunk);
    } else {
      AccumulateSteps(d, chunk);
      CommitView(Accumulate(d, chunk));
      AddKeepsHoldsIff(View(d), j.lines, j.pending + chunk, []);
    }
  }

  lemma FaultTracked(d: Dev, j: Journal, landed: seq<byte>)
    requires Tracks(d, j) && landed != []
    ensures Tracks(WriteFault(d, landed), Record(j, OpWrite(landed, Faulted(landed))))
  {
    WriteFaultSteps(d, landed);
  }

  /** Moving the cursor, in any way, keeps the history. */
  lemma CursorMoveTracked(d: Dev, d': Dev, j: Journal)
    requires Tracks(d, j) && d' == Dev(d.entry, d.bufferP.(outOffs := d'.bufferP.outOffs), d'.readCounter, d.heap)
    requires d'.bufferP.outOffs < CAPACITY
    ensures Tracks(d', j)
    ensures NoLeak(d) ==> NoLeak(d')
  {
    CursorMoves(d, d');
  }

  // ----- Runs in which the cursor is reset between a read and the next write

  predicate FitsAll(ops: seq<Op>) {
    forall i :: 0 <= i < |ops| && ops[i].OpWrite? ==> CopyFits(ops[i].chunk, ops[i].copy)
  }

  predicate AllCopied(ops: seq<Op>) {
    forall i :: 0 <= i < |ops| && ops[i].OpWrite? ==> ops[i].copy.Copied?
  }

  /** Since the last open, or from the start, there was no read. */
  predicate ArmedAfter(ops: seq<Op>) {
    ops == [] ||
    match ops[|ops| - 1]
    case OpOpen => true
    case OpRead(_, _, _) => false
    case OpWrite(_, _) => ArmedAfter(ops[..|ops| - 1])
  }

  /** Every write is preceded by an open with no read in between, or nothing was read so far. */
  predicate Disciplined(ops: seq<Op>) {
    forall i :: 0 <= i < |ops| && ops[i].OpWrite? ==> ArmedAfter(ops[..i])
  }

  lemma ArmedWriteTracked(d: Dev, j: Journal, chunk: seq<byte>)
    requires Tracks(d, j) && Armed(d.bufferP)
    ensures Tracks(Write(d, chunk, Copied), Feed(j, chunk)) && Armed(Write(d, chunk, Copied).bufferP)
    ensures d.bufferP.full ==> Write(d, chunk, Copied).bufferP.full
    ensures NoLeak(d) ==> NoLeak(Write(d, chunk, Copied))
  {
    assert FullTestCorrect(d.bufferP);
    FeedTracked(d, j, chunk);
  }

  /** An open arms the cursor. */
  lemma OpenTracked(d: Dev, j: Journal)
    requires Tracks(d, j)
    ensures Tracks(Open(d), j) && Armed(Open(d).bufferP)
    ensures NoLeak(d) ==> NoLeak(Open(d))
  {
    CursorMoveTracked(d, Open(d), j);
  }

  lemma ReadTracked(d: Dev, j: Journal, op: Op)
    requires Tracks(d, j) && op.OpRead?
    ensures Tracks(Apply(d, op), j)
    ensures NoLeak(d) ==> NoLeak(Apply(d, op))
  {
    CursorMoveTracked(d, Apply(d, op), j);
  }

  lemma StepTracked(d: Dev, j: Journal, op: Op)
    requires Tracks(d, j) && (op.OpWrite? ==> Armed(d.bufferP) && CopyFits(op.chunk, op.copy))
    ensures Tracks(Apply(d, op), Record(j, op))
    ensures op.OpOpen? || (op.OpWrite? && Armed(d.bufferP)) ==> Armed(Apply(d, op).bufferP)
    ensures NoLeak(d) && (op.OpWrite? ==> op.copy.Copied?) ==> NoLeak(Apply(d, op))
  {
    match op
    case OpOpen => OpenTracked(d, j);
    case OpRead(_, _, _) => ReadTracked(d, j, op);
    case OpWrite(chunk, Copied) => ArmedWriteTracked(d, j, chunk);
    case OpWrite(_, Faulted(landed)) => FaultTracked(d, j, landed);
  }

  lemma PrefixDisciplined(ops: seq<Op>)
    requires ops != []
    ensures var before := ops[..|ops| - 1];
            && (Disciplined(ops) ==> Disciplined(before) && (ops[|ops| - 1].OpWrite? ==> ArmedAfter(before)))
            && (FitsAll(ops) ==> FitsAll(before)) && (AllCopied(ops) ==> AllCopied(before))
  {
    var before := ops[..|ops| - 1];
    forall i | 0 <= i < |before| ensures ops[..i] == before[..i] && ops[i] == before[i] {}
  }

  /**
   Over every disciplined run the ring read from `in_offs` is exactly the last ten committed entries,
   and unless an append failed to copy, the live blocks are exactly those the device points to.
   */
  lemma {:induction false} DisciplinedRun(ops: seq<Op>)
    requires Disciplined(ops) && FitsAll(ops)
    ensures Tracks(Run(INITIAL_DEV, ops), JournalOf(ops))
    ensures ArmedAfter(ops) ==> Armed(Run(INITIAL_DEV, ops).bufferP)
    ensures AllCopied(ops) ==> NoLeak(Run(INITIAL_DEV, ops))
  {
    if ops == [] {
      InitialOwned();
      EmptyHolds<seq<byte>>([]);
    } else {
      var before := ops[..|ops| - 1];
      PrefixDisciplined(ops);
      DisciplinedRun(before);
      StepTracked(Run(INITIAL_DEV, before), JournalOf(before), ops[|ops| - 1]);
    }
  }

  // ----- Without the discipline

  const LINE: Op := OpWrite([NEWLINE], Copied)

  /** One line written and read back without an open, then `k` more lines. */
  function ReadThenWrite(k: nat): seq<Op> {
    if k == 0 then [LINE, OpRead(0, 2, true)] else ReadThenWrite(k - 1) + [LINE]
  }

  /** A device with `n` lines, nothing pending or leaked, and the cursor at `out`. */
  ghost predicate HasLines(d: Dev, j: Journal, n: nat, out: nat) {
    && Tracks(d, j) && |j.lines| == n && j.pending == [] && d.bufferP.outOffs == out
    && NoLeak(d) && (n > 0 ==> IsBlock(d.bufferP.slot[0].buffptr))
  }

  lemma LineCommitted(d: Dev, j: Journal, n: nat, out: nat)
    requires HasLines(d, j, n, out) && n < 9 && out != n + 1
    ensures HasLines(Apply(d, LINE), Record(j, LINE), n + 1, out)
  {
    assert d.bufferP.inOffs == n && !d.bufferP.full && FullTestCorrect(d.bufferP);
    assert Complete([NEWLINE]) && [] + [NEWLINE] == [NEWLINE];
    FeedTracked(d, j, [NEWLINE]);
    AccumulateSteps(d, [NEWLINE]);
  }

  lemma FirstLineWritten()
    ensures HasLines(Run(INITIAL_DEV, [LINE]), JournalOf([LINE]), 1, 0)
    ensures CurrentSize(Run(INITIAL_DEV, [LINE])) == 1
  {
    InitialOwned();
    EmptyHolds<seq<byte>>([]);
    assert [LINE][..0] == [];
    assert Run(INITIAL_DEV, []) == INITIAL_DEV && JournalOf([]) == Journal([], []);
    LineCommitted(INITIAL_DEV, Journal([], []), 0, 0);
    assert Complete([NEWLINE]) && [] + [NEWLINE] == [NEWLINE];
  }

  lemma FirstLineRead()
    ensures LeavesLines(ReadThenWrite(0), 1)
  {
    var read := OpRead(0, 2, true);
    FirstLineWritten();
    assert [LINE, read][..1] == [LINE];
    StepTracked(Run(INITIAL_DEV, [LINE]), JournalOf([LINE]), read);
  }

  lemma RunSnoc(ops: seq<Op>, op: Op)
    ensures Run(INITIAL_DEV, ops + [op]) == Apply(Run(INITIAL_DEV, ops), op)
    ensures JournalOf(ops + [op]) == Record(JournalOf(ops), op)
  {
    assert (ops + [op])[..|ops|] == ops;
  }

  ghost predicate LeavesLines(ops: seq<Op>, n: nat) {
    HasLines(Run(INITIAL_DEV, ops), JournalOf(ops), n, 1)
  }

  lemma OneMoreLine(ops: seq<Op>, n: nat)
    requires LeavesLines(ops, n) && 1 <= n < 9
    ensures LeavesLines(ops + [LINE], n + 1)
  {
    var d, j := Run(INITIAL_DEV, ops), JournalOf(ops);
    RunSnoc(ops, LINE);
    LineCommitted(d, j, n, 1);
  }

  lemma {:induction false} StillTracked(k: nat) returns (ops: seq<Op>)
    requires k <= 8
    ensures ops == ReadThenWrite(k) && LeavesLines(ops, k + 1)
  {
    if k == 0 {
      FirstLineRead();
      ops := ReadThenWrite(0);
    } else {
      ops := StillTracked(k - 1);
      OneMoreLine(ops, k);
      ops := ops + [LINE];
    }
  }

  /** Ten entries are stored, each in its block, and the ring is not marked full. */
  ghost predicate MissesFull(d: Dev, j: Journal) {
    && |j.lines| == 10 && !d.bufferP.full && !Tracks(d, j)
    && Owned(d) && NoLeak(d) && Pending(d) == [] && IsBlock(d.bufferP.slot[d.bufferP.inOffs].buffptr)
  }

  lemma TenthLine(d: Dev, j: Journal)
    requires HasLines(d, j, 9, 1)
    ensures MissesFull(Apply(d, LINE), Record(j, LINE))
  {
    assert Complete([NEWLINE]) && [] + [NEWLINE] == [NEWLINE];
    CommitTrackedIff(d, j, [NEWLINE]);
    AccumulateSteps(d, [NEWLINE]);
    CommitOwned(Accumulate(d, [NEWLINE]));
    ApplyLeaksIff(d, LINE);
  }

  lemma EleventhLine(d: Dev, j: Journal)
    requires MissesFull(d, j)
    ensures !NoLeak(Apply(d, LINE))
  {
    ApplyLeaksIff(d, LINE);
    assert Complete([NEWLINE]) && [] + [NEWLINE] == [NEWLINE];
  }

  /**
   After a read without an open, the tenth commit goes unnoticed: the ring is not marked full, and the
   eleventh overwrites the first entry without freeing its block.
   */
  lemma UndisciplinedRunLeaks() returns (ops: seq<Op>)
    ensures ops == ReadThenWrite(9)
    ensures MissesFull(Run(INITIAL_DEV, ops), JournalOf(ops)) && !NoLeak(Run(INITIAL_DEV, ops + [LINE]))
  {
    ops := StillTracked(8);
    RunSnoc(ops, LINE);
    TenthLine(Run(INITIAL_DEV, ops), JournalOf(ops));
    ops := ops + [LINE];
    RunSnoc(ops, LINE);
    EleventhLine(Run(INITIAL_DEV, ops), JournalOf(ops));
  }
}
