/**
 The driver of main.c: one device structure, updated in place by the system calls, and the open
 file whose position they move. Every call is proved to be the transition of `DeviceSpec`, and to
 keep the ownership of kernel memory.
 */
module CharDevice {
  import opened CircularBuffer
  import opened Kernel
  import opened DeviceSpec
  import opened Ownership
  import opened Commits
  import opened Seeking

  /** struct file, as far as the driver uses it. */
  class File {
    var fPos: nat

    constructor ()
      ensures fPos == 0
    {
      fPos := 0;
    }
  }

  /** checkEOLChar */
  method CheckEolChar(buff: seq<byte>, size: nat) returns (pos: int)
    requires size <= |buff|
    ensures pos == FirstEol(buff[..size])
  {
    for i := 0 to size
      invariant NoEol(buff, 0, i)
    {
      if buff[i] == NEWLINE {
        FirstEolUnique(buff[..size], i);
        return i;
      }
    }
    return -1;
  }

  class Device {
    var entry: Entry
    const bufferP: Buffer
    var readCounter: nat
    var heap: Heap

    ghost predicate Valid()
      reads this, bufferP, bufferP.entry
    {
      bufferP.Valid() && Owned(Model())
    }

    ghost function Model(): Dev
      requires bufferP.Valid()
      reads this, bufferP, bufferP.entry
    {
      Dev(entry, bufferP.Model(), readCounter, heap)
    }

    /** aesd_init_module */
    constructor ()
      ensures Valid() && fresh(bufferP) && fresh(bufferP.entry) && Model() == INITIAL_DEV
    {
      entry, readCounter, heap := BLANK, 0, FRESH_HEAP;
      bufferP := new Buffer();
      new;
      InitialOwned();
    }

    /** aesd_open */
    method Open() returns (retval: int)
      requires Valid()
      modifies bufferP`outOffs
      ensures Valid() && Model() == DeviceSpec.Open(old(Model())) && retval == 0
    {
      if !bufferP.full {
        bufferP.outOffs := 0;
      }
      ApplyOwned(old(Model()), OpOpen);
      return 0;
    }

    /** aesd_read. `copied` says whether copy_to_user reaches the caller's buffer. */
    method Read(filp: File, count: nat, copied: bool) returns (retval: int, data: seq<byte>)
      requires Valid()
      modifies this`readCounter, bufferP`outOffs, filp
      ensures Valid()
      ensures ReadResult(Model(), filp.fPos, retval, data) == old(DeviceSpec.Read(Model(), filp.fPos, count, copied))
    {
      ghost var before := Model();
      ApplyOwned(before, OpRead(filp.fPos, count, copied));
      var lastNonZeroReadCurrentEntry := false;
      var n := count;
      var entrySize := bufferP.entry[bufferP.outOffs].size;
      retval, data := 0, [];
      if entrySize == 0 {
        return;
      }
      if readCounter == 10 {
        readCounter := 0;
        return;
      }
      if filp.fPos + n > entrySize {
        if filp.fPos > entrySize {
          return EFAULT, [];
        }
        n := entrySize - filp.fPos;
        lastNonZeroReadCurrentEntry := true;
      }
      if !copied {
        return EFAULT, [];
      }
      data := Bytes(heap, bufferP.entry[bufferP.outOffs])[..n];
      filp.fPos := filp.fPos + n;
      retval := n;
      readCounter := readCounter + 1;
      if lastNonZeroReadCurrentEntry {
        bufferP.outOffs := Advance(bufferP.outOffs);
        filp.fPos := 0;
      }
    }

    /** write_entry_into_buffer */
    method WriteEntryIntoBuffer()
      requires Valid()
      modifies this`entry, this`heap, bufferP, bufferP.entry
      ensures Valid() && Model() == CommitIfComplete(old(Model()))
    {
      ghost var before := Model();
      var data := Bytes(heap, entry);
      assert data[..entry.size] == data;
      var eolPos := CheckEolChar(data, entry.size);
      if eolPos == entry.size - 1 {
        CommitOwned(before);
        var entryToRemove := bufferP.AddEntry(entry);
        if entryToRemove != NULL {
          heap := Kfree(heap, entryToRemove);
        }
        entry := BLANK;
      }
    }

    /** aesd_write */
    method Write(filp: File, buf: seq<byte>, copy: Copy) returns (retval: int)
      requires Valid() && CopyFits(buf, copy)
      modifies this`entry, this`heap, bufferP, bufferP.entry, filp
      ensures Valid() && Model() == DeviceSpec.Write(old(Model()), buf, copy)
      ensures retval == if copy.Copied? then |buf| else EFAULT
      ensures filp.fPos == old(filp.fPos) + if copy.Copied? then |buf| else 0
    {
      ghost var before := Model();
      if entry.buffptr != NULL {
        var newSize := |buf| + entry.size;
        var content := Bytes(heap, entry) + match copy { case Copied => buf case Faulted(landed) => landed };
        var newString := Kmalloc(heap, content);
        heap := Filled(heap, content);
        if copy.Faulted? {
          assert Model() == WriteFault(before, copy.landed);
          WriteFaultSteps(before, copy.landed);
          return EFAULT;
        }
        heap := Kfree(heap, entry.buffptr);
        entry := Entry(newString, newSize);
        assert Model() == Accumulate(before, buf);
        AccumulateSteps(before, buf);
        WriteEntryIntoBuffer();
      } else {
        var content := match copy { case Copied => buf case Faulted(landed) => landed };
        entry := Entry(Kmalloc(heap, content), |buf|);
        heap := Filled(heap, content);
        if copy.Faulted? {
          assert Model() == WriteFault(before, copy.landed);
          WriteFaultSteps(before, copy.landed);
          return EFAULT;
        }
        assert Model() == Accumulate(before, buf);
        AccumulateSteps(before, buf);
        WriteEntryIntoBuffer();
      }
      filp.fPos := filp.fPos + |buf|;
      return |buf|;
    }

    /** aesd_adjust_file_offset. The loop is AESD_CIRCULAR_BUFFER_FOREACH over the physical slots. */
    method AdjustFileOffset(filp: File, writeCmd: nat, writeCmdOffset: nat) returns (retval: int)
      requires Valid()
      modifies filp
      ensures retval == if Accepted(bufferP.Model().slot, writeCmd, writeCmdOffset) then 0 else EINVAL
      ensures filp.fPos == if Accepted(bufferP.Model().slot, writeCmd, writeCmdOffset)
                           then SeekPosition(bufferP.Model().slot, writeCmd, writeCmdOffset) else old(filp.fPos)
      ensures var s := Stored(Model());
              if writeCmd < 10 && writeCmdOffset < |s[writeCmd]| then
                retval == 0 && filp.fPos == |Concat(s[..writeCmd])| + writeCmdOffset
                && filp.fPos < |Concat(s)| && Concat(s)[filp.fPos] == s[writeCmd][writeCmdOffset]
              else retval == EINVAL && filp.fPos == old(filp.fPos)
    {
      SeekAddressesByte(Model(), writeCmd, writeCmdOffset);
      if writeCmd >= CAPACITY {
        return EINVAL;
      }
      var totalSize := 0;
      for i := 0 to CAPACITY
        invariant i <= writeCmd && totalSize == PhysicalStart(bufferP.Model().slot, i)
        invariant filp.fPos == old(filp.fPos)
      {
        var slot := bufferP.entry[i];
        if i == writeCmd {
          if writeCmdOffset >= slot.size {
            return EINVAL;
          }
          filp.fPos := totalSize + writeCmdOffset;
          return 0;
        }
        totalSize := totalSize + slot.size;
      }
      return 0;
    }

    /** aesd_llseek */
    method Llseek(filp: File, offset: int, whence: Whence) returns (retval: int)
      requires Valid()
      modifies filp
      ensures retval == old(DeviceSpec.Llseek(Model(), filp.fPos, offset, whence))
      ensures filp.fPos == if retval >= 0 then retval else old(filp.fPos)
    {
      var totalSize := 0;
      for index := 0 to CAPACITY
        invariant totalSize == PhysicalStart(bufferP.Model().slot, index)
      {
        totalSize := totalSize + bufferP.entry[index].size;
      }
      var newpos: int;
      match whence {
        case SeekSet => newpos := offset;
        case SeekCur => newpos := filp.fPos + offset;
        case SeekEnd => newpos := bufferP.outOffs + offset;
        case SeekOther => return EINVAL;
      }
      if newpos < 0 || newpos > totalSize {
        return EINVAL;
      }
      filp.fPos := newpos;
      return newpos;
    }

    /** clean_aesd */
    method Clean()
      requires Valid()
      modifies this`heap
      ensures Model() == old(Model().(heap := CleanSlots(Model().heap, Model().bufferP.slot, CAPACITY)))
      ensures Consistent(heap) && heap.freed == old(heap.freed) + SlotBlocks(bufferP.Model().slot, CAPACITY)
      ensures old(NoLeak(Model())) ==> forall p :: p in heap.blocks <==> IsBlock(p) && p == entry.buffptr
    {
      for index := 0 to CAPACITY
        invariant heap == CleanSlots(old(heap), bufferP.Model().slot, index)
      {
        heap := Kfree(heap, bufferP.entry[index].buffptr);
      }
      CleanFreesEachOnce(old(Model()));
      if old(NoLeak(Model())) {
        CleanLeavesOnlyPending(old(Model()));
      }
    }
  }
}
