/**
 The char device of main.c as state and transitions: the pending entry, the ring, the read counter
 and the kernel memory behind them. `Device` (Device.dfy) performs these transitions in place.
 */
module DeviceSpec {
  import opened CircularBuffer
  import opened Kernel

  const NEWLINE: byte := 10
  const EINVAL: int := -22
  const EFAULT: int := -14

  datatype Dev = Dev(entry: Entry, bufferP: Ring<Entry>, readCounter: nat, heap: Heap)

  /** aesd_init_module */
  const INITIAL_DEV := Dev(BLANK, EmptyRing(BLANK), 0, FRESH_HEAP)

  /** No newline among the bytes from `i` up to `j`. */
  predicate NoEol(buff: seq<byte>, i: nat, j: nat)
    requires j <= |buff|
  {
    forall k :: i <= k < j ==> buff[k] != NEWLINE
  }

  /** The position of the first newline at or after `i`, or -1. */
  function EolFrom(buff: seq<byte>, i: nat): (pos: int)
    requires i <= |buff|
    ensures pos == -1 || i <= pos < |buff|
    ensures pos == -1 ==> NoEol(buff, i, |buff|)
    ensures pos >= 0 ==> buff[pos] == NEWLINE && NoEol(buff, i, pos)
    decreases |buff| - i
  {
    if i == |buff| then -1 else if buff[i] == NEWLINE then i else EolFrom(buff, i + 1)
  }

  /** checkEOLChar: the position of the first newline, or -1. */
  function FirstEol(buff: seq<byte>): int { EolFrom(buff, 0) }

  lemma FirstEolUnique(s: seq<byte>, e: nat)
    requires e < |s| && s[e] == NEWLINE && NoEol(s, 0, e)
    ensures FirstEol(s) == e
  {
  }

  /**
   The test `EOLPos == size - 1`. For size 0 the C comparison converts -1 on both sides to the same
   unsigned number, so an empty entry passes, as it does here over the integers.
   */
  predicate Complete(data: seq<byte>) { FirstEol(data) == |data| - 1 }

  // ----- write

  /** copy_from_user: all bytes arrive, or it fails and leaves `landed` in the destination. */
  datatype Copy = Copied | Faulted(landed: seq<byte>)

  predicate CopyFits(chunk: seq<byte>, copy: Copy) {
    copy.Faulted? ==> chunk != [] && |copy.landed| == |chunk|
  }

  /** write_entry_into_buffer */
  function CommitIfComplete(d: Dev): Dev
    requires |d.bufferP.slot| == CAPACITY
  {
    if Complete(Bytes(d.heap, d.entry)) then
      var heap := match Evicted(d.bufferP) { case None => d.heap case Some(e) => Kfree(d.heap, e.buffptr) };
      Dev(BLANK, Add(d.bufferP, d.entry), d.readCounter, heap)
    else d
  }

  /** The device once the chunk has been appended to the pending entry, before any commit. */
  function Accumulate(d: Dev, chunk: seq<byte>): Dev {
    if d.entry.buffptr != NULL then
      var data := Bytes(d.heap, d.entry) + chunk;
      var heap := Kfree(Filled(d.heap, data), d.entry.buffptr);
      d.(entry := Entry(Kmalloc(d.heap, data), d.entry.size + |chunk|), heap := heap)
    else
      d.(entry := Entry(Kmalloc(d.heap, chunk), |chunk|), heap := Filled(d.heap, chunk))
  }

  /** A failed copy: a block nobody points to when appending, a pending entry of junk when starting. */
  function WriteFault(d: Dev, landed: seq<byte>): Dev {
    if d.entry.buffptr != NULL then
      d.(heap := Filled(d.heap, Bytes(d.heap, d.entry) + landed))
    else
      d.(entry := Entry(Kmalloc(d.heap, landed), |landed|), heap := Filled(d.heap, landed))
  }

  /** aesd_write */
  function Write(d: Dev, chunk: seq<byte>, copy: Copy): Dev
    requires |d.bufferP.slot| == CAPACITY
  {
    match copy
    case Copied => CommitIfComplete(Accumulate(d, chunk))
    case Faulted(landed) => WriteFault(d, landed)
  }

  // ----- open and read

  function ResetCursor(d: Dev): Dev {
    d.(bufferP := d.bufferP.(outOffs := 0))
  }

  /** aesd_open */
  function Open(d: Dev): Dev {
    if !d.bufferP.full then ResetCursor(d) else d
  }

  datatype ReadResult = ReadResult(dev: Dev, fPos: nat, retval: int, data: seq<byte>)

  /** The size that aesd_read fetches before it takes the lock. */
  function CurrentSize(d: Dev): nat
    requires Shape(d.bufferP)
  {
    d.bufferP.slot[d.bufferP.outOffs].size
  }

  /**
   aesd_read under the lock, with the size fetched earlier. `count` is what remains after the kernel
   has limited a request, so `fPos + count` does not wrap. When the position is past the entry, the
   clipped count wraps to more than INT_MAX and copy_to_user refuses it.
   */
  function ReadLocked(d: Dev, fPos: nat, count: nat, entrySize: nat, copied: bool): ReadResult
    requires Shape(d.bufferP)
  {
    if entrySize == 0 then ReadResult(d, fPos, 0, [])
    else if d.readCounter == 10 then ReadResult(d.(readCounter := 0), fPos, 0, [])
    else
      var last := fPos + count > entrySize;
      if !copied || (last && fPos > entrySize) then ReadResult(d, fPos, EFAULT, [])
      else
        var n := if last then entrySize - fPos else count;
        var all := Bytes(d.heap, d.bufferP.slot[d.bufferP.outOffs]);
        var data := if n <= |all| then all[..n] else all;
        if last then
          var ring := d.bufferP.(outOffs := Advance(d.bufferP.outOffs));
          ReadResult(d.(readCounter := d.readCounter + 1, bufferP := ring), 0, n, data)
        else
          ReadResult(d.(readCounter := d.readCounter + 1), fPos + n, n, data)
  }

  /** aesd_read with nothing happening between the fetch of the size and the lock. */
  function Read(d: Dev, fPos: nat, count: nat, copied: bool): ReadResult
    requires Shape(d.bufferP)
  {
    ReadLocked(d, fPos, count, CurrentSize(d), copied)
  }

  // ----- seek

  /** The bytes in the first k physical slots. */
  function PhysicalStart(slot: seq<Entry>, k: nat): nat
    requires k <= |slot|
  {
    if k == 0 then 0 else PhysicalStart(slot, k - 1) + slot[k - 1].size
  }

  predicate Accepted(slot: seq<Entry>, writeCmd: nat, writeCmdOffset: nat) {
    writeCmd < |slot| && writeCmdOffset < slot[writeCmd].size
  }

  /** aesd_adjust_file_offset: the position it sets, if it accepts the pair. */
  function SeekPosition(slot: seq<Entry>, writeCmd: nat, writeCmdOffset: nat): nat
    requires Accepted(slot, writeCmd, writeCmdOffset)
  {
    PhysicalStart(slot, writeCmd) + writeCmdOffset
  }

  datatype Whence = SeekSet | SeekCur | SeekEnd | SeekOther

  /** aesd_llseek: the new position, or -EINVAL with the position unchanged. SEEK_END counts from `out_offs`. */
  function Llseek(d: Dev, fPos: nat, offset: int, whence: Whence): int
    requires Shape(d.bufferP)
  {
    var newpos := match whence
      case SeekSet => offset
      case SeekCur => fPos + offset
      case SeekEnd => d.bufferP.outOffs + offset
      case SeekOther => EINVAL;
    if 0 <= newpos <= PhysicalStart(d.bufferP.slot, CAPACITY) then newpos else EINVAL
  }

  // ----- cleanup

  /** clean_aesd up to physical slot k. */
  function CleanSlots(h: Heap, slot: seq<Entry>, k: nat): Heap
    requires k <= |slot|
  {
    if k == 0 then h else Kfree(CleanSlots(h, slot, k - 1), slot[k - 1].buffptr)
  }
}
