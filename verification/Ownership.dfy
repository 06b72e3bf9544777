/**
 Who owns kernel memory: the ten slots and the pending entry own distinct live blocks, for every run
 of the driver, and the byte strings they denote follow the abstract ring of `CircularBuffer`.
 */
module Ownership {
  import opened CircularBuffer
  import opened Kernel
  import opened DeviceSpec

  /** Slots and pending entry denote live blocks, no two the same one, and the heap account is sound. */
  ghost predicate Owned(d: Dev) {
    && Shape(d.bufferP)
    && Consistent(d.heap)
    && Denotes(d.heap, d.entry)
    && (forall i :: 0 <= i < CAPACITY ==> Denotes(d.heap, d.bufferP.slot[i]))
    && (forall i, j :: 0 <= i < j < CAPACITY && IsBlock(d.bufferP.slot[i].buffptr) ==>
          d.bufferP.slot[i].buffptr != d.bufferP.slot[j].buffptr)
    && (forall i :: 0 <= i < CAPACITY && IsBlock(d.entry.buffptr) ==>
          d.bufferP.slot[i].buffptr != d.entry.buffptr)
  }

  /** The device still points to block `p`. */
  ghost predicate Reaches(d: Dev, p: nat) {
    p == d.entry.buffptr || exists i :: 0 <= i < |d.bufferP.slot| && d.bufferP.slot[i].buffptr == p
  }

  /** Every live block is still pointed to. */
  ghost predicate NoLeak(d: Dev) {
    forall p :: p in d.heap.blocks ==> Reaches(d, p)
  }

  /** The bytes that have been written and not committed. */
  function Pending(d: Dev): seq<byte> { Bytes(d.heap, d.entry) }

  /** The ring of byte strings that the ring of pointers stands for. */
  function View(d: Dev): Ring<seq<byte>> {
    var slot := d.bufferP.slot;
    var lines := seq(|slot|, i requires 0 <= i < |slot| => Bytes(d.heap, slot[i]));
    Ring(lines, d.bufferP.inOffs, d.bufferP.outOffs, d.bufferP.full)
  }

  lemma InitialOwned()
    ensures Owned(INITIAL_DEV) && NoLeak(INITIAL_DEV) && Pending(INITIAL_DEV) == []
    ensures View(INITIAL_DEV) == EmptyRing([])
  {
  }

  // ----- Appending to the pending entry

  lemma AccumulateSteps(d: Dev, chunk: seq<byte>)
    requires Owned(d)
    ensures Owned(Accumulate(d, chunk))
    ensures Pending(Accumulate(d, chunk)) == Pending(d) + chunk
    ensures View(Accumulate(d, chunk)) == View(d)
    ensures NoLeak(d) ==> NoLeak(Accumulate(d, chunk))
  {
    var data := Pending(d) + chunk;
    FilledKeeps(d.heap, data);
    KfreeKeeps(Filled(d.heap, data), d.entry.buffptr);
    assert d.entry.buffptr == NULL ==> data == chunk;
    assert View(Accumulate(d, chunk)).slot == View(d).slot;
  }

  lemma WriteFaultSteps(d: Dev, landed: seq<byte>)
    requires Owned(d)
    ensures Owned(WriteFault(d, landed))
    ensures Pending(WriteFault(d, landed)) == if d.entry.buffptr == NULL then landed else Pending(d)
    ensures View(WriteFault(d, landed)) == View(d)
  {
    FilledKeeps(d.heap, landed);
    FilledKeeps(d.heap, Pending(d) + landed);
    assert View(WriteFault(d, landed)).slot == View(d).slot;
  }

  /** A failing append loses the block it has just filled; a failing first write keeps it as the pending entry. */
  lemma WriteFaultLeaksIff(d: Dev, landed: seq<byte>)
    requires Owned(d) && NoLeak(d) && landed != []
    ensures NoLeak(WriteFault(d, landed)) <==> d.entry.buffptr == NULL
  {
    var d' := WriteFault(d, landed);
    var p := Kmalloc(d.heap, if d.entry.buffptr == NULL then landed else Pending(d) + landed);
    assert p in d'.heap.blocks && p !in d.heap.blocks;
    if d.entry.buffptr == NULL {
      forall q | q in d'.heap.blocks ensures Reaches(d', q) {
        assert q != p ==> Reaches(d, q);
      }
    } else {
      forall i | 0 <= i < CAPACITY ensures d'.bufferP.slot[i].buffptr != p {
        assert Denotes(d.heap, d.bufferP.slot[i]);
      }
      assert Denotes(d.heap, d.entry) && !Reaches(d', p);
    }
  }

  // ----- Committing

  lemma CommitOwned(d: Dev)
    requires Owned(d) && Complete(Pending(d))
    ensures Owned(CommitIfComplete(d))
    ensures Pending(CommitIfComplete(d)) == []
  {
    if d.bufferP.full {
      KfreeKeeps(d.heap, d.bufferP.slot[d.bufferP.inOffs].buffptr);
    }
  }

  lemma CommitView(d: Dev)
    requires Owned(d) && Complete(Pending(d))
    ensures View(CommitIfComplete(d)) == Add(View(d), Pending(d))
  {
    if d.bufferP.full {
      KfreeKeeps(d.heap, d.bufferP.slot[d.bufferP.inOffs].buffptr);
    }
    assert View(CommitIfComplete(d)).slot == Add(View(d), Pending(d)).slot;
  }

  /** A commit leaks exactly the block it overwrites without handing it back to be freed. */
  lemma CommitLeaksIff(d: Dev)
    requires Owned(d) && NoLeak(d) && Complete(Pending(d))
    ensures NoLeak(CommitIfComplete(d)) <==>
            d.bufferP.full || !IsBlock(d.bufferP.slot[d.bufferP.inOffs].buffptr)
  {
    var d', k := CommitIfComplete(d), d.bufferP.inOffs;
    var lost := d.bufferP.slot[k].buffptr;
    forall i | 0 <= i < CAPACITY && i != k
      ensures d'.bufferP.slot[i] == d.bufferP.slot[i]
    {}
    assert d'.bufferP.slot[k] == d.entry;
    if d.bufferP.full || !IsBlock(lost) {
      forall p | p in d'.heap.blocks ensures Reaches(d', p) {
        assert Reaches(d, p) && p != lost;
      }
    } else {
      assert lost in d'.heap.blocks && !Reaches(d', lost);
    }
  }

  // ----- One step of the device, for every operation

  datatype Op =
    | OpOpen
    | OpRead(fPos: nat, count: nat, copied: bool)
    | OpWrite(chunk: seq<byte>, copy: Copy)

  function Apply(d: Dev, op: Op): Dev
    requires Shape(d.bufferP)
  {
    match op
    case OpOpen => Open(d)
    case OpRead(fPos, count, copied) => Read(d, fPos, count, copied).dev
    case OpWrite(chunk, copy) => Write(d, chunk, copy)
  }

  /** A cursor move, by open or by read, changes neither contents nor ownership. */
  lemma CursorMoves(d: Dev, d': Dev)
    requires Owned(d) && d' == Dev(d.entry, d.bufferP.(outOffs := d'.bufferP.outOffs), d'.readCounter, d.heap)
    requires d'.bufferP.outOffs < CAPACITY
    ensures Owned(d') && Pending(d') == Pending(d)
    ensures View(d') == View(d).(outOffs := d'.bufferP.outOffs)
    ensures NoLeak(d) ==> NoLeak(d')
  {
    if NoLeak(d) {
      forall p | p in d'.heap.blocks ensures Reaches(d', p) {
        assert Reaches(d, p);
      }
    }
  }

  lemma ApplyOwned(d: Dev, op: Op)
    requires Owned(d)
    ensures Owned(Apply(d, op))
  {
    match op
    case OpOpen => CursorMoves(d, Apply(d, op));
    case OpRead(_, _, _) => CursorMoves(d, Apply(d, op));
    case OpWrite(chunk, Copied) =>
      AccumulateSteps(d, chunk);
      if Complete(Pending(Accumulate(d, chunk))) {
        CommitOwned(Accumulate(d, chunk));
      }
    case OpWrite(_, Faulted(landed)) => WriteFaultSteps(d, landed);
  }

  /**
   What an operation must find in order to lose no block: a commit, the ring marked full or no block
   in the slot it overwrites; a failing copy, no pending entry.
   */
  predicate Retains(d: Dev, op: Op)
    requires Shape(d.bufferP)
  {
    match op
    case OpWrite(chunk, Copied) =>
      Complete(Pending(d) + chunk) ==> d.bufferP.full || !IsBlock(d.bufferP.slot[d.bufferP.inOffs].buffptr)
    case OpWrite(_, Faulted(_)) => d.entry.buffptr == NULL
    case _ => true
  }

  lemma ApplyLeaksIff(d: Dev, op: Op)
    requires Owned(d) && NoLeak(d) && (op.OpWrite? ==> CopyFits(op.chunk, op.copy))
    ensures NoLeak(Apply(d, op)) <==> Retains(d, op)
  {
    match op
    case OpOpen => CursorMoves(d, Apply(d, op));
    case OpRead(_, _, _) => CursorMoves(d, Apply(d, op));
    case OpWrite(chunk, Copied) =>
      AccumulateSteps(d, chunk);
      if Complete(Pending(Accumulate(d, chunk))) {
        CommitLeaksIff(Accumulate(d, chunk));
      }
    case OpWrite(_, Faulted(landed)) => WriteFaultLeaksIff(d, landed);
  }

  function Run(d: Dev, ops: seq<Op>): Dev
    requires Shape(d.bufferP)
    ensures Shape(Run(d, ops).bufferP)
  {
    if ops == [] then d else Apply(Run(d, ops[..|ops| - 1]), ops[|ops| - 1])
  }

  /**
   Over every run, in any order of opens, reads, writes and failing copies: slots and pending entry
   own distinct live blocks, nothing freed is reachable, nothing is freed twice.
   */
  lemma {:induction false} RunOwned(ops: seq<Op>)
    ensures Owned(Run(INITIAL_DEV, ops))
    ensures var d := Run(INITIAL_DEV, ops);
            && (forall p :: IsBlock(p) && Reaches(d, p) ==> p in d.heap.blocks && p !in d.heap.freed)
            && (forall i, j :: 0 <= i < j < |d.heap.freed| ==> d.heap.freed[i] != d.heap.freed[j])
  {
    if ops == [] {
      InitialOwned();
    } else {
      RunOwned(ops[..|ops| - 1]);
      ApplyOwned(Run(INITIAL_DEV, ops[..|ops| - 1]), ops[|ops| - 1]);
    }
  }

  // ----- Module unload

  /** The blocks that the first k slots own, in slot order. */
  function SlotBlocks(slot: seq<Entry>, k: nat): seq<nat>
    requires k <= |slot|
  {
    if k == 0 then [] else
    SlotBlocks(slot, k - 1) + if IsBlock(slot[k - 1].buffptr) then [slot[k - 1].buffptr] else []
  }

  /** One of the first k slots points to `p`. */
  ghost predicate AmongFirst(slot: seq<Entry>, k: nat, p: nat)
    requires k <= |slot|
  {
    exists i :: 0 <= i < k && slot[i].buffptr == p
  }

  lemma NextSlotLive(d: Dev, k: nat)
    requires Owned(d) && k < CAPACITY && IsBlock(d.bufferP.slot[k].buffptr)
    ensures d.bufferP.slot[k].buffptr in d.heap.blocks
    ensures !AmongFirst(d.bufferP.slot, k, d.bufferP.slot[k].buffptr)
  {
    assert Denotes(d.heap, d.bufferP.slot[k]);
  }

  lemma {:induction false} CleanLogsInOrder(h: Heap, slot: seq<Entry>, k: nat)
    requires k <= |slot|
    ensures CleanSlots(h, slot, k).freed == h.freed + SlotBlocks(slot, k)
  {
    if k > 0 {
      CleanLogsInOrder(h, slot, k - 1);
    }
  }

  lemma AmongOneMore(slot: seq<Entry>, k: nat, p: nat)
    requires k < |slot|
    ensures AmongFirst(slot, k + 1, p) <==> AmongFirst(slot, k, p) || p == slot[k].buffptr
  {
  }

  lemma {:induction false} CleanKeepsAccount(d: Dev, k: nat)
    requires Owned(d) && k <= CAPACITY
    ensures var h := CleanSlots(d.heap, d.bufferP.slot, k);
            && Consistent(h)
            && forall p :: p in h.blocks <==> p in d.heap.blocks && !AmongFirst(d.bufferP.slot, k, p)
  {
    if k > 0 {
      var slot, h := d.bufferP.slot, CleanSlots(d.heap, d.bufferP.slot, k - 1);
      CleanKeepsAccount(d, k - 1);
      if IsBlock(slot[k - 1].buffptr) {
        NextSlotLive(d, k - 1);
      }
      KfreeKeeps(h, slot[k - 1].buffptr);
      forall p ensures AmongFirst(slot, k, p) <==> AmongFirst(slot, k - 1, p) || p == slot[k - 1].buffptr {
        AmongOneMore(slot, k - 1, p);
      }
    }
  }

  /** clean_aesd frees the block of each slot once, in order, and no other. */
  lemma CleanFreesEachOnce(d: Dev)
    requires Owned(d)
    ensures var h := CleanSlots(d.heap, d.bufferP.slot, CAPACITY);
            && Consistent(h)
            && h.freed == d.heap.freed + SlotBlocks(d.bufferP.slot, CAPACITY)
            && forall p :: p in h.blocks <==> p in d.heap.blocks && !AmongFirst(d.bufferP.slot, CAPACITY, p)
  {
    CleanLogsInOrder(d.heap, d.bufferP.slot, CAPACITY);
    CleanKeepsAccount(d, CAPACITY);
  }

  /** If nothing had leaked, all that survives unloading is the entry still pending. */
  lemma CleanLeavesOnlyPending(d: Dev)
    requires Owned(d) && NoLeak(d)
    ensures var h := CleanSlots(d.heap, d.bufferP.slot, CAPACITY);
            forall p :: p in h.blocks <==> IsBlock(p) && p == d.entry.buffptr
  {
    CleanFreesEachOnce(d);
    forall p | p in CleanSlots(d.heap, d.bufferP.slot, CAPACITY).blocks ensures p == d.entry.buffptr {
      assert Reaches(d, p);
    }
  }
}
