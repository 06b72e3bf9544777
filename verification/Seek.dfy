/**
 Seeking by (command, offset): the positions it sets, and their agreement with the offset search.
 */
module Seeking {
  import opened CircularBuffer
  import opened DeviceSpec
  import opened OffsetSearch
  import opened SearchContract
  import opened Kernel
  import opened Ownership
  import opened Commits

  lemma {:induction false} PhysicalStartMonotone(slot: seq<Entry>, j: nat, k: nat)
    requires j <= k <= |slot|
    ensures PhysicalStart(slot, j) <= PhysicalStart(slot, k)
  {
    if j < k {
      PhysicalStartMonotone(slot, j, k - 1);
    }
  }

  /** Lexicographic order of accepted pairs is the order of the positions, in both directions. */
  lemma SeekOrderIsomorphism(slot: seq<Entry>, c1: nat, o1: nat, c2: nat, o2: nat)
    requires Accepted(slot, c1, o1) && Accepted(slot, c2, o2)
    ensures SeekPosition(slot, c1, o1) < SeekPosition(slot, c2, o2) <==> c1 < c2 || (c1 == c2 && o1 < o2)
    ensures SeekPosition(slot, c1, o1) == SeekPosition(slot, c2, o2) <==> c1 == c2 && o1 == o2
  {
    if c1 < c2 {
      PhysicalStartMonotone(slot, c1 + 1, c2);
    } else if c2 < c1 {
      PhysicalStartMonotone(slot, c2 + 1, c1);
    }
  }

  lemma SeekInRange(slot: seq<Entry>, cmd: nat, offset: nat)
    requires Accepted(slot, cmd, offset)
    ensures SeekPosition(slot, cmd, offset) < PhysicalStart(slot, |slot|)
  {
    PhysicalStartMonotone(slot, cmd + 1, |slot|);
  }

  /** Every position below the total is set by some accepted pair. */
  lemma {:induction false} SeekOnto(slot: seq<Entry>, k: nat, pos: nat) returns (cmd: nat, offset: nat)
    requires k <= |slot| && pos < PhysicalStart(slot, k)
    ensures cmd < k && Accepted(slot, cmd, offset) && SeekPosition(slot, cmd, offset) == pos
  {
    if pos < PhysicalStart(slot, k - 1) {
      cmd, offset := SeekOnto(slot, k - 1, pos);
    } else {
      cmd, offset := k - 1, pos - PhysicalStart(slot, k - 1);
    }
  }

  // ----- The byte that a pair stands for

  /** The strings in the ten slots, in physical order. */
  function Stored(d: Dev): (s: seq<seq<byte>>)
    ensures |s| == |d.bufferP.slot|
  {
    View(d).slot
  }

  lemma {:induction false} StartIsLength(d: Dev, k: nat)
    requires Owned(d) && k <= CAPACITY
    ensures PhysicalStart(d.bufferP.slot, k) == |Concat(Stored(d)[..k])|
  {
    if k > 0 {
      StartIsLength(d, k - 1);
      assert Denotes(d.heap, d.bufferP.slot[k - 1]);
      assert Stored(d)[..k][..k - 1] == Stored(d)[..k - 1];
    }
  }

  lemma ConcatAt(s: seq<seq<byte>>, k: nat, i: nat)
    requires k < |s| && i < |s[k]|
    ensures |Concat(s[..k])| + i < |Concat(s)| && Concat(s)[|Concat(s[..k])| + i] == s[k][i]
  {
    assert s == s[..k + 1] + s[k + 1..];
    ConcatAppend(s[..k + 1], s[k + 1..]);
    assert s[..k + 1][..k] == s[..k];
  }

  /**
   A pair is accepted exactly if the command is the number of a slot and the offset that of a byte in it,
   and the position is that byte's place among all stored bytes, slot after slot.
   */
  lemma SeekAddressesByte(d: Dev, cmd: nat, offset: nat)
    requires Owned(d)
    ensures Accepted(d.bufferP.slot, cmd, offset) <==> cmd < 10 && offset < |Stored(d)[cmd]|
    ensures cmd < 10 && offset < |Stored(d)[cmd]| ==>
              var pos := SeekPosition(d.bufferP.slot, cmd, offset);
              && pos == |Concat(Stored(d)[..cmd])| + offset
              && pos < |Concat(Stored(d))| && Concat(Stored(d))[pos] == Stored(d)[cmd][offset]
  {
    if cmd < 10 {
      assert Denotes(d.heap, d.bufferP.slot[cmd]);
      StartIsLength(d, cmd);
      if offset < |Stored(d)[cmd]| {
        ConcatAt(Stored(d), cmd, offset);
      }
    }
  }

  // ----- The total does not depend on the cursor

  /** The bytes in physical slots `lo` up to `hi`. */
  function Between(slot: seq<Entry>, lo: nat, hi: nat): nat
    requires lo <= hi <= |slot|
  {
    PhysicalStartMonotone(slot, lo, hi);
    PhysicalStart(slot, hi) - PhysicalStart(slot, lo)
  }

  lemma {:induction false} StartIsPhysical(r: Ring<Entry>, k: nat)
    requires Shape(r) && k <= CAPACITY
    ensures Start(r, k) == if r.outOffs + k <= CAPACITY then Between(r.slot, r.outOffs, r.outOffs + k)
                           else Between(r.slot, r.outOffs, CAPACITY) + PhysicalStart(r.slot, r.outOffs + k - CAPACITY)
  {
    if k > 0 {
      StartIsPhysical(r, k - 1);
    }
  }

  /** The sum that llseek and seek compute from slot 0 is the sum the search computes from the cursor. */
  lemma TotalIndependentOfCursor(r: Ring<Entry>)
    requires Shape(r)
    ensures Total(r) == PhysicalStart(r.slot, CAPACITY)
  {
    StartIsPhysical(r, CAPACITY);
  }

  lemma StartFromZero(r: Ring<Entry>, k: nat)
    requires Shape(r) && r.outOffs == 0 && k < CAPACITY
    ensures Start(r, k) == PhysicalStart(r.slot, k) && SlotAt(r, k) == k
  {
    StartIsPhysical(r, k);
  }

  /**
   With the cursor at 0, seeking to the start of a command and searching for it find each other,
   exactly when the slot before the command is not empty and 16-bit truncation does not show; with up
   to 32767 bytes stored it never does.
   */
  lemma SeekThenSearch(r: Ring<Entry>, cmd: nat, found: Found)
    requires Shape(r) && r.outOffs == 0 && Accepted(r.slot, cmd, 0)
    requires SeekPosition(r.slot, cmd, 0) < TWO64 && Returns(r, SeekPosition(r.slot, cmd, 0), found)
    ensures var filled := cmd > 0 ==> r.slot[cmd - 1].size > 0;
            && (found == At(cmd, 0) <==>
                filled && forall j :: 0 <= j <= cmd ==> ComparesTrue(r, SeekPosition(r.slot, cmd, 0), j))
            && (filled && Total(r) <= INT16_MAX ==> found == At(cmd, 0))
  {
    StartFromZero(r, cmd);
    EntryStartFound(r, SeekPosition(r.slot, cmd, 0), cmd, found);
  }

  // ----- llseek

  /** From any position, SEEK_SET and SEEK_CUR reach exactly the positions up to the total. */
  lemma LlseekReaches(d: Dev, from: nat, pos: int)
    requires Shape(d.bufferP)
    ensures Llseek(d, from, pos, SeekSet) == Llseek(d, from, pos - from, SeekCur)
    ensures Llseek(d, from, pos, SeekSet) == if 0 <= pos <= Total(d.bufferP) then pos else EINVAL
  {
    TotalIndependentOfCursor(d.bufferP);
  }

  /**
   SEEK_SET, SEEK_CUR and SEEK_END reach exactly the positions up to the number of stored bytes, counted
   from 0, from the position, and from the cursor's slot number; any other base is an error.
   */
  lemma LlseekCountsFrom(d: Dev, from: nat, offset: int)
    requires Owned(d)
    ensures var size := |Concat(Stored(d))|;
            && Llseek(d, from, offset, SeekSet) == (if 0 <= offset <= size then offset else EINVAL)
            && Llseek(d, from, offset, SeekCur) == (if 0 <= from + offset <= size then from + offset else EINVAL)
            && Llseek(d, from, offset, SeekEnd) ==
               (if 0 <= d.bufferP.outOffs + offset <= size then d.bufferP.outOffs + offset else EINVAL)
            && Llseek(d, from, offset, SeekOther) == EINVAL
  {
    StartIsLength(d, CAPACITY);
    assert Stored(d)[..CAPACITY] == Stored(d);
  }

  /** SEEK_END counts from the cursor's slot number, so it finds the end only where that is the size. */
  lemma SeekEndIsSizeIff(d: Dev, from: nat)
    requires Shape(d.bufferP)
    ensures Llseek(d, from, 0, SeekEnd) == Total(d.bufferP) <==> d.bufferP.outOffs == Total(d.bufferP)
  {
    TotalIndependentOfCursor(d.bufferP);
  }
}
