/**
 What the offset search was meant to return, and when it does: the same search over unbounded
 integers, and the contract in its comment.
 */
module SearchContract {
  import opened CircularBuffer
  import opened OffsetSearch

  // ----- The search without truncation

  /** `k` is the first of the eleven boundaries (ten starts and the total) not below the offset. */
  ghost predicate LowerBound(r: Ring<Entry>, charOffset: nat, k: nat)
    requires Shape(r)
  {
    k <= CAPACITY && Start(r, k) >= charOffset && forall j :: 0 <= j < k ==> Start(r, j) < charOffset
  }

  /** The byte computed for boundary `k`; negative when that slot is shorter than the overshoot. */
  function ReportedByte(r: Ring<Entry>, charOffset: nat, k: nat): int
    requires Shape(r) && k <= CAPACITY
  {
    if charOffset == Start(r, k) then 0 else charOffset - Start(r, k) + r.slot[SlotAt(r, k)].size
  }

  /** The position is unavailable: past the data, and past the start of the last slot. */
  predicate Unavailable(r: Ring<Entry>, charOffset: nat)
    requires Shape(r)
  {
    charOffset >= Total(r) && charOffset > Start(r, CAPACITY - 1)
  }

  /** A lower bound over the starts, or nothing. */
  ghost predicate ReturnsUntruncated(r: Ring<Entry>, charOffset: nat, found: Found)
    requires Shape(r)
  {
    match found
    case NotFound => Unavailable(r, charOffset)
    case At(_, _) =>
      && !Unavailable(r, charOffset)
      && exists k :: LowerBound(r, charOffset, k) && found == At(SlotAt(r, k), ToSizeT(ReportedByte(r, charOffset, k)))
  }

  lemma LowerBoundUnique(r: Ring<Entry>, charOffset: nat, j: nat, k: nat)
    requires Shape(r) && LowerBound(r, charOffset, j) && LowerBound(r, charOffset, k)
    ensures j == k
  {
  }

  lemma SlotAtInjective(r: Ring<Entry>, j: nat, k: nat)
    requires Shape(r) && j <= CAPACITY && k <= CAPACITY && SlotAt(r, j) == SlotAt(r, k)
    ensures j == k || (j == 0 && k == CAPACITY) || (j == CAPACITY && k == 0)
  {
  }

  lemma OnlyZeroAtZero(r: Ring<Entry>, charOffset: nat, k: nat)
    requires Shape(r) && k <= CAPACITY
    ensures StopsAt(r, charOffset, 0) || LowerBound(r, charOffset, 0) ==> charOffset == 0
    ensures charOffset == 0 && (StopsAt(r, charOffset, k) || LowerBound(r, charOffset, k)) ==> k == 0
  {
    assert Seen(r, 0) == 0 && Start(r, 0) == 0;
  }

  // ----- Truncated numbers in residues modulo 2^16

  /** What becomes of a number that is stored in an `int16_t` and compared as a `size_t`. */
  function Folded(x: int): nat {
    if x % TWO16 <= INT16_MAX then x % TWO16 else TWO64 - TWO16 + x % TWO16
  }

  lemma FoldedIs(x: int)
    ensures ToSizeT(ToInt16(x)) == Folded(x) && Folded(x) % TWO16 == x % TWO16
    ensures ToInt16(x) >= 0 <==> x % TWO16 <= INT16_MAX
  {
  }

  lemma SeenFolded(r: Ring<Entry>, k: nat)
    requires Shape(r) && k <= CAPACITY
    ensures Seen(r, k) == Folded(Start(r, k))
  {
    FoldedIs(Start(r, k));
  }

  lemma LastSeenFolded(r: Ring<Entry>)
    requires Shape(r)
    ensures LastSeen(r) == Folded(Total(r) - 1)
  {
    TruncateSum(Total(r), -1);
    FoldedIs(Total(r) - 1);
  }

  lemma TruncateSubtrahend(a: int, b: int)
    ensures ToInt16(b - ToInt16(a)) == ToInt16(b - a)
  {
    var q := (a + INT16_MAX + 1) / TWO16;
    assert ToInt16(a) == a - TWO16 * q;
    var x := b - a;
    assert (x + TWO16 * q + INT16_MAX + 1) % TWO16 == (x + INT16_MAX + 1) % TWO16;
  }

  lemma OffsetTruncated(r: Ring<Entry>, charOffset: nat, k: nat)
    requires Shape(r) && k <= CAPACITY
    ensures var x := charOffset - Start(r, k);
            OffsetAt(r, charOffset, k) ==
            if ToInt16(x) < 0 then ToInt16(x + r.slot[SlotAt(r, k)].size) else ToInt16(x)
  {
    TruncateSubtrahend(Start(r, k), charOffset);
    TruncateSum(charOffset - Start(r, k), r.slot[SlotAt(r, k)].size);
  }

  /** The byte that the search computes, from the true boundary. */
  lemma OffsetFolded(r: Ring<Entry>, charOffset: nat, k: nat)
    requires Shape(r) && k <= CAPACITY
    ensures var x := charOffset - Start(r, k);
            ToSizeT(OffsetAt(r, charOffset, k)) ==
            if x % TWO16 <= INT16_MAX then Folded(x) else Folded(x + r.slot[SlotAt(r, k)].size)
  {
    var x := charOffset - Start(r, k);
    OffsetTruncated(r, charOffset, k);
    FoldedIs(x);
    FoldedIs(x + r.slot[SlotAt(r, k)].size);
  }

  // ----- When truncation does not show

  /** The truncated boundary compares with the offset as the true one does. */
  predicate ComparesTrue(r: Ring<Entry>, charOffset: nat, k: nat)
    requires Shape(r) && k <= CAPACITY
  {
    Seen(r, k) < charOffset <==> Start(r, k) < charOffset
  }

  /** Truncating a number and extending it again changes nothing. */
  predicate FitsInt16(x: int) {
    x % TWO64 <= INT16_MAX || x % TWO64 >= TWO64 - INT16_MAX - 1
  }

  lemma FoldedFixed(y: nat)
    requires y < TWO64
    ensures Folded(y) == y <==> y <= INT16_MAX || y >= TWO64 - INT16_MAX - 1
  {
    assert y == TWO16 * (y / TWO16) + y % TWO16;
  }

  lemma ResidueIs(x: int, q: int, residue: nat)
    requires x == TWO16 * q + residue && residue < TWO16
    ensures x % TWO16 == residue
  {
    assert TWO16 * (x / TWO16 - q) == residue - x % TWO16;
  }

  lemma SizeTIs(x: int)
    ensures ToSizeT(x) == x % TWO64 && x % TWO64 % TWO16 == x % TWO16
  {
    var q, y := x / TWO64, x % TWO64;
    assert x == TWO64 * q + y;
    ResidueIs(x, 0x1_0000_0000_0000 * q + y / TWO16, y % TWO16);
  }

  lemma FitsIff(x: int)
    ensures Folded(x) == ToSizeT(x) <==> FitsInt16(x)
  {
    SizeTIs(x);
    FoldedFixed(x % TWO64);
  }

  /**
   Truncation leaves the byte alone when a boundary lies `over` bytes past the offset and its slot holds
   `size` bytes: there is nothing to correct, or the correction is made and its result fits, or it is
   not made and the residue happens to be the result.
   */
  predicate ByteTrue(size: int, over: int) {
    || over == 0
    || if 1 <= over % TWO16 <= INT16_MAX + 1 then FitsInt16(size - over)
       else (size - over) % TWO64 == -over % TWO16
  }

  lemma Negated(x: int)
    ensures -x % TWO16 == if x % TWO16 == 0 then 0 else TWO16 - x % TWO16
  {
    var q := x / TWO16;
    if x % TWO16 == 0 {
      ResidueIs(-x, -q, 0);
    } else {
      ResidueIs(-x, -q - 1, TWO16 - x % TWO16);
    }
  }

  lemma ByteTrueIff(r: Ring<Entry>, charOffset: nat, k: nat)
    requires Shape(r) && k <= CAPACITY && charOffset <= Start(r, k)
    ensures ToSizeT(OffsetAt(r, charOffset, k)) == ToSizeT(ReportedByte(r, charOffset, k)) <==>
            ByteTrue(r.slot[SlotAt(r, k)].size, Start(r, k) - charOffset)
  {
    var size, over := r.slot[SlotAt(r, k)].size, Start(r, k) - charOffset;
    OffsetFolded(r, charOffset, k);
    Negated(over);
    FitsIff(size - over);
    SizeTIs(size - over);
  }

  /** Where truncation shows neither in the comparisons up to boundary k nor in the byte there. */
  ghost predicate TrueAt(r: Ring<Entry>, charOffset: nat, k: nat)
    requires Shape(r) && k <= CAPACITY
  {
    && (forall j :: 0 <= j <= k ==> ComparesTrue(r, charOffset, j))
    && (k == CAPACITY ==> charOffset <= LastSeen(r))
    && charOffset <= Start(r, k) && ByteTrue(r.slot[SlotAt(r, k)].size, Start(r, k) - charOffset)
  }

  /** A condition on the stored sizes and the offset alone. */
  ghost predicate TruncationInvisible(r: Ring<Entry>, charOffset: nat)
    requires Shape(r)
  {
    if Unavailable(r, charOffset) then
      (forall j :: 0 <= j < CAPACITY ==> ComparesTrue(r, charOffset, j)) && LastSeen(r) < charOffset
    else
      exists k :: LowerBound(r, charOffset, k) && TrueAt(r, charOffset, k)
  }

  lemma AllStartsBelow(r: Ring<Entry>, charOffset: nat)
    requires Shape(r) && charOffset > Start(r, CAPACITY - 1)
    ensures forall j :: 0 <= j < CAPACITY ==> Start(r, j) < charOffset
  {
    forall j | 0 <= j < CAPACITY ensures Start(r, j) < charOffset {
      StartMonotone(r, j, CAPACITY - 1);
    }
  }

  lemma SameSlotSameBoundary(r: Ring<Entry>, charOffset: nat, j: nat, k: nat)
    requires Shape(r) && LowerBound(r, charOffset, j) && StopsAt(r, charOffset, k) && SlotAt(r, j) == SlotAt(r, k)
    ensures j == k
  {
    SlotAtInjective(r, j, k);
    OnlyZeroAtZero(r, charOffset, j);
    OnlyZeroAtZero(r, charOffset, k);
  }

  lemma TrueAtStops(r: Ring<Entry>, charOffset: nat, k: nat)
    requires Shape(r) && LowerBound(r, charOffset, k) && TrueAt(r, charOffset, k)
    ensures StopsAt(r, charOffset, k)
  {
    forall j | 0 <= j < k ensures Seen(r, j) < charOffset {
      assert ComparesTrue(r, charOffset, j);
    }
    assert ComparesTrue(r, charOffset, k);
  }

  lemma MissIff(r: Ring<Entry>, charOffset: nat)
    requires Shape(r) && Unavailable(r, charOffset)
    ensures Misses(r, charOffset) <==> TruncationInvisible(r, charOffset)
  {
    AllStartsBelow(r, charOffset);
    if TruncationInvisible(r, charOffset) {
      forall j | 0 <= j < CAPACITY ensures Seen(r, j) < charOffset {
        assert ComparesTrue(r, charOffset, j);
      }
    }
  }

  lemma TrueWhereAgreed(r: Ring<Entry>, charOffset: nat, k: nat)
    requires Shape(r) && LowerBound(r, charOffset, k) && forall j :: 0 <= j <= k ==> ComparesTrue(r, charOffset, j)
    requires k == CAPACITY ==> charOffset <= LastSeen(r)
    requires ToSizeT(OffsetAt(r, charOffset, k)) == ToSizeT(ReportedByte(r, charOffset, k))
    ensures TrueAt(r, charOffset, k)
  {
    ByteTrueIff(r, charOffset, k);
  }

  lemma AgreementIsTrue(r: Ring<Entry>, charOffset: nat, k: nat)
    requires Shape(r) && LowerBound(r, charOffset, k) && StopsAt(r, charOffset, k)
    requires ToSizeT(OffsetAt(r, charOffset, k)) == ToSizeT(ReportedByte(r, charOffset, k))
    ensures TrueAt(r, charOffset, k)
  {
    ByteTrueIff(r, charOffset, k);
  }

  lemma TrueByte(r: Ring<Entry>, charOffset: nat, k: nat)
    requires Shape(r) && LowerBound(r, charOffset, k) && TrueAt(r, charOffset, k)
    ensures ToSizeT(OffsetAt(r, charOffset, k)) == ToSizeT(ReportedByte(r, charOffset, k))
  {
    ByteTrueIff(r, charOffset, k);
  }

  lemma StopsAtTruth(r: Ring<Entry>, charOffset: nat, found: Found, k: nat)
    requires Shape(r) && Returns(r, charOffset, found) && !Unavailable(r, charOffset)
    requires LowerBound(r, charOffset, k) && StopsAt(r, charOffset, k)
    requires ToSizeT(OffsetAt(r, charOffset, k)) == ToSizeT(ReportedByte(r, charOffset, k))
    ensures ReturnsUntruncated(r, charOffset, found)
  {
    ReturnsUnique(r, charOffset, found, At(SlotAt(r, k), ToSizeT(OffsetAt(r, charOffset, k))));
  }

  /** For every ring and offset: the 16-bit search is the unbounded one exactly where truncation is invisible. */
  lemma UntruncatedIff(r: Ring<Entry>, charOffset: nat, found: Found)
    requires Shape(r) && charOffset < TWO64 && Returns(r, charOffset, found)
    ensures ReturnsUntruncated(r, charOffset, found) <==> TruncationInvisible(r, charOffset)
  {
    if Unavailable(r, charOffset) {
      MissIff(r, charOffset);
      if Misses(r, charOffset) {
        ReturnsUnique(r, charOffset, found, NotFound);
      }
    } else {
      if ReturnsUntruncated(r, charOffset, found) {
        var j :| LowerBound(r, charOffset, j) && found == At(SlotAt(r, j), ToSizeT(ReportedByte(r, charOffset, j)));
        var k :| StopsAt(r, charOffset, k) && found == At(SlotAt(r, k), ToSizeT(OffsetAt(r, charOffset, k)));
        SameSlotSameBoundary(r, charOffset, j, k);
        AgreementIsTrue(r, charOffset, k);
      }
      if k :| LowerBound(r, charOffset, k) && TrueAt(r, charOffset, k) {
        TrueAtStops(r, charOffset, k);
        TrueByte(r, charOffset, k);
        StopsAtTruth(r, charOffset, found, k);
      }
    }
  }

  lemma ByteWithin(r: Ring<Entry>, charOffset: nat, k: nat)
    requires Shape(r) && LowerBound(r, charOffset, k) && Start(r, k) <= INT16_MAX
    requires r.slot[SlotAt(r, k)].size <= INT16_MAX
    ensures ToSizeT(OffsetAt(r, charOffset, k)) == ToSizeT(ReportedByte(r, charOffset, k))
  {
    assert Accumulated(r, k) == Start(r, k);
  }

  lemma ComparesWithin(r: Ring<Entry>, charOffset: nat, k: nat)
    requires Shape(r) && k <= CAPACITY && Start(r, k) <= INT16_MAX
    ensures forall j :: 0 <= j <= k ==> ComparesTrue(r, charOffset, j)
  {
    forall j | 0 <= j <= k ensures ComparesTrue(r, charOffset, j) {
      StartMonotone(r, j, k);
    }
  }

  lemma BeforeLast(r: Ring<Entry>, charOffset: nat)
    requires Shape(r) && LowerBound(r, charOffset, CAPACITY) && !Unavailable(r, charOffset) && Total(r) <= INT16_MAX
    ensures charOffset <= LastSeen(r)
  {
  }

  /** Per offset: it suffices that the boundary found and its slot fit in 16 bits. */
  lemma InvisibleWithin(r: Ring<Entry>, charOffset: nat, k: nat)
    requires Shape(r) && LowerBound(r, charOffset, k) && !Unavailable(r, charOffset)
    requires Start(r, k) <= INT16_MAX && r.slot[SlotAt(r, k)].size <= INT16_MAX
    ensures TruncationInvisible(r, charOffset)
  {
    if k == CAPACITY {
      BeforeLast(r, charOffset);
    }
    ComparesWithin(r, charOffset, k);
    ByteWithin(r, charOffset, k);
    TrueWhereAgreed(r, charOffset, k);
  }

  lemma SizeWithinTotal(r: Ring<Entry>, k: nat)
    requires Shape(r) && k <= CAPACITY
    ensures r.slot[SlotAt(r, k)].size <= Total(r)
  {
    var k' := if k == CAPACITY then 0 else k;
    assert Start(r, k' + 1) == Start(r, k') + r.slot[SlotAt(r, k')].size;
    StartMonotone(r, k' + 1, CAPACITY);
  }

  lemma {:induction false} LowerBoundExists(r: Ring<Entry>, charOffset: nat, k: nat) returns (b: nat)
    requires Shape(r) && k <= CAPACITY && Start(r, k) >= charOffset
    ensures b <= k && LowerBound(r, charOffset, b)
  {
    if exists j :: 0 <= j < k && Start(r, j) >= charOffset {
      var j :| 0 <= j < k && Start(r, j) >= charOffset;
      b := LowerBoundExists(r, charOffset, j);
    } else {
      b := k;
    }
  }

  /** With 1 to 32767 bytes stored truncation never shows, whatever the offset. */
  lemma SmallRingsUnaffected(r: Ring<Entry>, charOffset: nat)
    requires Shape(r) && 1 <= Total(r) <= INT16_MAX
    ensures TruncationInvisible(r, charOffset)
  {
    if Unavailable(r, charOffset) {
      ComparesWithin(r, charOffset, CAPACITY);
    } else {
      var k := LowerBoundExists(r, charOffset, if charOffset <= Total(r) then CAPACITY else CAPACITY - 1);
      StartMonotone(r, k, CAPACITY);
      SizeWithinTotal(r, k);
      InvisibleWithin(r, charOffset, k);
    }
  }

  /** One entry of 32768 bytes: an offset past the data finds a slot instead of NULL. */
  lemma TruncationMatters()
    ensures var r := Add(EmptyRing(BLANK), Entry(2, INT16_MAX + 1));
            Returns(r, 40000, At(1, 7232)) && !ReturnsUntruncated(r, 40000, At(1, 7232))
  {
    var r := Add(EmptyRing(BLANK), Entry(2, INT16_MAX + 1));
    BlankTail(r, 1);
    BlankTail(r, CAPACITY - 1);
    BlankTail(r, CAPACITY);
    assert Accumulated(r, 1) == -INT16_MAX - 1 && Seen(r, 0) == 0;
    assert StopsAt(r, 40000, 1) && OffsetAt(r, 40000, 1) == 7232;
  }

  // ----- The documented contract

  /** What the header comment promises: the entry and byte of the offset, or NULL past the data. */
  ghost predicate AsDocumented(r: Ring<Entry>, charOffset: nat, found: Found)
    requires Shape(r)
  {
    match found
    case NotFound => charOffset >= Total(r)
    case At(i, b) =>
      exists k :: 0 <= k < CAPACITY && i == SlotAt(r, k) && b < r.slot[i].size && Start(r, k) + b == charOffset
  }

  /** The slot at boundary k holds the offset, at the byte the search computes. */
  predicate Hits(r: Ring<Entry>, charOffset: nat, k: nat)
    requires Shape(r) && k <= CAPACITY
  {
    var j := if k == CAPACITY then 0 else k;
    Start(r, j) <= charOffset < Start(r, j + 1) && ToSizeT(OffsetAt(r, charOffset, k)) == charOffset - Start(r, j)
  }

  /** The byte survives truncation: it is small, or near 2^64 in a slot whose size truncates to 0. */
  predicate ByteFits(size: nat, byteOffset: nat) {
    byteOffset <= INT16_MAX || (byteOffset >= TWO64 - INT16_MAX - 1 && size % TWO16 == 0)
  }

  lemma ByteFitsIff(size: nat, x: nat)
    requires x < TWO64
    ensures (if x % TWO16 <= INT16_MAX then Folded(x) else Folded(x + size)) == x <==> ByteFits(size, x)
  {
    FoldedFixed(x);
    FoldedIs(x + size);
    SameResidue(x + size, x);
  }

  lemma HitsIff(r: Ring<Entry>, charOffset: nat, k: nat)
    requires Shape(r) && k < CAPACITY && charOffset < TWO64
    ensures Hits(r, charOffset, k) <==>
            && Start(r, k) <= charOffset < Start(r, k + 1)
            && ByteFits(r.slot[SlotAt(r, k)].size, charOffset - Start(r, k))
  {
    if Start(r, k) <= charOffset {
      OffsetFolded(r, charOffset, k);
      ByteFitsIff(r.slot[SlotAt(r, k)].size, charOffset - Start(r, k));
    }
  }

  /** The search never comes back to the first slot after a full turn with the byte of an offset in it. */
  lemma TurnNeverHits(r: Ring<Entry>, charOffset: nat)
    requires Shape(r) && StopsAt(r, charOffset, CAPACITY)
    ensures !Hits(r, charOffset, CAPACITY)
  {
    var size := r.slot[SlotAt(r, 0)].size;
    assert Start(r, 1) == size && Seen(r, 0) == 0;
    SeenFolded(r, 1);
    SeenFolded(r, CAPACITY);
    OffsetFolded(r, charOffset, CAPACITY);
    FoldedApart(charOffset, Total(r), size);
  }

  lemma SameResidue(x: int, y: int)
    ensures x % TWO16 == y % TWO16 <==> (x - y) % TWO16 == 0
  {
    var p, q := x / TWO16, y / TWO16;
    assert x - y == TWO16 * (p - q) + (x % TWO16 - y % TWO16);
  }

  lemma FoldedApart(c: nat, total: nat, size: nat)
    requires 0 < c && Folded(size) < c <= Folded(total)
    ensures Folded(c - total) != c && Folded(c - total + size) != c
  {
    FoldedIs(c - total);
    FoldedIs(c - total + size);
    SameResidue(c, c - total);
    SameResidue(c - total + size, c);
    SameResidue(size, total);
  }

  lemma FoundHitsIff(r: Ring<Entry>, charOffset: nat, k: nat)
    requires Shape(r) && k <= CAPACITY
    ensures AsDocumented(r, charOffset, At(SlotAt(r, k), ToSizeT(OffsetAt(r, charOffset, k))))
       <==> Hits(r, charOffset, k)
  {
    var j := if k == CAPACITY then 0 else k;
    assert Start(r, j + 1) == Start(r, j) + r.slot[SlotAt(r, j)].size && SlotAt(r, j) == SlotAt(r, k);
    forall i | 0 <= i < CAPACITY && SlotAt(r, i) == SlotAt(r, j) ensures i == j {
      SlotAtInjective(r, i, j);
    }
  }

  /** The first k starts are, as truncated, below the offset. */
  predicate StartsBelow(r: Ring<Entry>, charOffset: nat, k: nat)
    requires Shape(r) && k <= CAPACITY
  {
    forall j :: 0 <= j < k ==> Folded(Start(r, j)) < charOffset
  }

  /** The offset is past the data, and past every start and the last position as truncated. */
  predicate PastAll(r: Ring<Entry>, charOffset: nat)
    requires Shape(r)
  {
    charOffset >= Total(r) && Folded(Total(r) - 1) < charOffset && StartsBelow(r, charOffset, CAPACITY)
  }

  /** The k-th slot holds the offset at a byte that fits, and its start is the first, as truncated, not below it. */
  predicate HeldAt(r: Ring<Entry>, charOffset: nat, k: nat)
    requires Shape(r) && k < CAPACITY
  {
    && Start(r, k) <= charOffset < Start(r, k + 1)
    && ByteFits(r.slot[SlotAt(r, k)].size, charOffset - Start(r, k))
    && StartsBelow(r, charOffset, k)
    && charOffset <= Folded(Start(r, k))
  }

  lemma MissesPastIff(r: Ring<Entry>, charOffset: nat)
    requires Shape(r)
    ensures Misses(r, charOffset) && charOffset >= Total(r) <==> PastAll(r, charOffset)
  {
    LastSeenFolded(r);
    forall j | 0 <= j < CAPACITY ensures Seen(r, j) == Folded(Start(r, j)) {
      SeenFolded(r, j);
    }
  }

  lemma StopsHeldIff(r: Ring<Entry>, charOffset: nat, k: nat)
    requires Shape(r) && charOffset < TWO64 && k < CAPACITY
    ensures StopsAt(r, charOffset, k) && Hits(r, charOffset, k) <==> HeldAt(r, charOffset, k)
  {
    HitsIff(r, charOffset, k);
    forall j | 0 <= j <= k ensures Seen(r, j) == Folded(Start(r, j)) {
      SeenFolded(r, j);
    }
  }

  lemma FoundDocumentedIff(r: Ring<Entry>, charOffset: nat, found: Found, k: nat)
    requires Shape(r) && charOffset < TWO64 && StopsAt(r, charOffset, k)
    requires found == At(SlotAt(r, k), ToSizeT(OffsetAt(r, charOffset, k)))
    ensures AsDocumented(r, charOffset, found) <==> k < CAPACITY && HeldAt(r, charOffset, k)
  {
    FoundHitsIff(r, charOffset, k);
    if k == CAPACITY {
      TurnNeverHits(r, charOffset);
    } else {
      StopsHeldIff(r, charOffset, k);
    }
  }

  /**
   For every ring and offset, from the stored sizes and the offset alone: the comment is right exactly
   past the data, as truncated, and in a slot that holds the offset and is the first, as truncated,
   whose start is not below it.
   */
  lemma DocumentedIff(r: Ring<Entry>, charOffset: nat, found: Found)
    requires Shape(r) && charOffset < TWO64 && Returns(r, charOffset, found)
    ensures AsDocumented(r, charOffset, found) <==>
            PastAll(r, charOffset) || exists k :: 0 <= k < CAPACITY && HeldAt(r, charOffset, k)
  {
    MissesPastIff(r, charOffset);
    if k :| 0 <= k < CAPACITY && HeldAt(r, charOffset, k) {
      StopsHeldIff(r, charOffset, k);
      ReturnsUnique(r, charOffset, found, At(SlotAt(r, k), ToSizeT(OffsetAt(r, charOffset, k))));
      FoundDocumentedIff(r, charOffset, found, k);
    }
    if found.At? {
      var k :| StopsAt(r, charOffset, k) && found == At(SlotAt(r, k), ToSizeT(OffsetAt(r, charOffset, k)));
      FoundDocumentedIff(r, charOffset, found, k);
    }
    if PastAll(r, charOffset) {
      ReturnsUnique(r, charOffset, found, NotFound);
    }
  }

  /**
   Below the last 2^15 offsets: a slot that holds the offset within its first 2^15 bytes is found exactly
   at its start, if that does not truncate, or wherever its start truncates to a negative number.
   */
  lemma HeldAtIff(r: Ring<Entry>, charOffset: nat, k: nat)
    requires Shape(r) && charOffset < TWO64 - INT16_MAX - 1 && k < CAPACITY
    ensures HeldAt(r, charOffset, k) <==>
            && Start(r, k) <= charOffset < Start(r, k + 1) && charOffset - Start(r, k) <= INT16_MAX
            && StartsBelow(r, charOffset, k)
            && (charOffset == Start(r, k) <= INT16_MAX || Start(r, k) % TWO16 > INT16_MAX)
  {
    if Start(r, k) <= charOffset {
      NotBelowFolded(Start(r, k), charOffset);
    }
  }

  lemma NotBelowFolded(x: nat, c: nat)
    requires x <= c < TWO64 - INT16_MAX - 1
    ensures c <= Folded(x) <==> c == x <= INT16_MAX || x % TWO16 > INT16_MAX
  {
  }

  /** Two entries, of 40000 and of 100 bytes: an offset inside the second one is found as documented. */
  lemma InteriorOffsetFound()
    ensures var r := Add(Add(EmptyRing(BLANK), Entry(2, 40000)), Entry(3, 100));
            Returns(r, 40005, At(1, 5)) && AsDocumented(r, 40005, At(1, 5))
  {
    var r := Add(Add(EmptyRing(BLANK), Entry(2, 40000)), Entry(3, 100));
    assert Start(r, 0) == 0 && Start(r, 1) == 40000 && Start(r, 2) == 40100;
    assert HeldAt(r, 40005, 1);
    StopsHeldIff(r, 40005, 1);
    FoundHitsIff(r, 40005, 1);
    OffsetFolded(r, 40005, 1);
    assert SlotAt(r, 1) == 1 && ToSizeT(OffsetAt(r, 40005, 1)) == 5;
  }

  /** The offset starts the k-th slot, which is not empty and does not follow an empty slot. */
  predicate StartsEntry(r: Ring<Entry>, charOffset: nat, k: nat)
    requires Shape(r)
  {
    && k < CAPACITY
    && Start(r, k) == charOffset
    && r.slot[SlotAt(r, k)].size > 0
    && (k > 0 ==> r.slot[SlotAt(r, k - 1)].size > 0)
  }

  lemma StartsEntryIsLowerBound(r: Ring<Entry>, charOffset: nat, k: nat)
    requires Shape(r) && StartsEntry(r, charOffset, k)
    ensures LowerBound(r, charOffset, k) && charOffset < Total(r)
  {
    StartMonotone(r, k + 1, CAPACITY);
    forall j | 0 <= j < k ensures Start(r, j) < charOffset {
      StartMonotone(r, j, k - 1);
    }
  }

  lemma DescribedSlotIsBound(r: Ring<Entry>, charOffset: nat, k: nat, j: nat, b: nat)
    requires Shape(r) && LowerBound(r, charOffset, k)
    requires j < CAPACITY && SlotAt(r, j) == SlotAt(r, k)
    requires b < r.slot[SlotAt(r, j)].size && Start(r, j) + b == charOffset
    ensures StartsEntry(r, charOffset, k)
  {
    SlotAtInjective(r, j, k);
    assert Start(r, j + 1) == Start(r, j) + r.slot[SlotAt(r, j)].size;
    if k > 0 {
      assert Start(r, k) == Start(r, k - 1) + r.slot[SlotAt(r, k - 1)].size;
    }
  }

  lemma UntruncatedDocumentedIff(r: Ring<Entry>, charOffset: nat, found: Found)
    requires Shape(r) && ReturnsUntruncated(r, charOffset, found)
    ensures AsDocumented(r, charOffset, found) <==>
            Unavailable(r, charOffset) || exists k :: StartsEntry(r, charOffset, k)
  {
    if found.At? {
      var k :| LowerBound(r, charOffset, k) && found == At(SlotAt(r, k), ToSizeT(ReportedByte(r, charOffset, k)));
      if AsDocumented(r, charOffset, found) {
        var j :| 0 <= j < CAPACITY && found.slot == SlotAt(r, j)
              && found.byteOffset < r.slot[found.slot].size && Start(r, j) + found.byteOffset == charOffset;
        DescribedSlotIsBound(r, charOffset, k, j, found.byteOffset);
      }
      if j :| StartsEntry(r, charOffset, j) {
        StartsEntryIsLowerBound(r, charOffset, j);
        LowerBoundUnique(r, charOffset, j, k);
      }
    }
  }

  /**
   Where truncation is invisible, the comment is right exactly at the start of an entry and strictly
   past the data; inside an entry, and at the end of data that leaves the tenth slot empty, it is not.
   */
  lemma DocumentedWhereInvisible(r: Ring<Entry>, charOffset: nat, found: Found)
    requires Shape(r) && charOffset < TWO64 && Returns(r, charOffset, found) && TruncationInvisible(r, charOffset)
    ensures AsDocumented(r, charOffset, found) <==>
            Unavailable(r, charOffset) || exists k :: StartsEntry(r, charOffset, k)
  {
    UntruncatedIff(r, charOffset, found);
    UntruncatedDocumentedIff(r, charOffset, found);
  }

  lemma OffsetZeroAtStart(r: Ring<Entry>, k: nat)
    requires Shape(r) && k <= CAPACITY
    ensures OffsetAt(r, Start(r, k), k) == 0
  {
    TruncateSubtrahend(Start(r, k), Start(r, k));
  }

  lemma LowerBoundStopsIff(r: Ring<Entry>, charOffset: nat, k: nat)
    requires Shape(r) && LowerBound(r, charOffset, k) && k < CAPACITY
    ensures StopsAt(r, charOffset, k) <==> forall j :: 0 <= j <= k ==> ComparesTrue(r, charOffset, j)
  {
    if forall j :: 0 <= j <= k ==> ComparesTrue(r, charOffset, j) {
      assert ComparesTrue(r, charOffset, k);
      forall j | 0 <= j < k ensures Seen(r, j) < charOffset {
        assert ComparesTrue(r, charOffset, j);
      }
    }
  }

  lemma EntryStartStopsIff(r: Ring<Entry>, charOffset: nat, k: nat, found: Found)
    requires Shape(r) && k < CAPACITY && Start(r, k) == charOffset && Returns(r, charOffset, found)
    ensures found == At(SlotAt(r, k), 0) <==> StopsAt(r, charOffset, k)
  {
    OffsetZeroAtStart(r, k);
    assert Seen(r, 0) == 0;
    if StopsAt(r, charOffset, k) {
      ReturnsUnique(r, charOffset, found, At(SlotAt(r, k), ToSizeT(OffsetAt(r, charOffset, k))));
    } else if found.At? {
      var j :| StopsAt(r, charOffset, j) && found == At(SlotAt(r, j), ToSizeT(OffsetAt(r, charOffset, j)));
      if SlotAt(r, j) == SlotAt(r, k) {
        SlotAtInjective(r, j, k);
      }
    }
  }

  /**
   For every ring and cursor position, the start of a non-empty entry is found as that entry, byte 0,
   exactly when no empty slot precedes it and the truncated boundaries up to it compare with it as the
   true ones do.
   */
  lemma EntryStartFound(r: Ring<Entry>, charOffset: nat, k: nat, found: Found)
    requires Shape(r) && k < CAPACITY && Start(r, k) == charOffset && r.slot[SlotAt(r, k)].size > 0
    requires Returns(r, charOffset, found)
    ensures found == At(SlotAt(r, k), 0) <==>
            StartsEntry(r, charOffset, k) && forall j :: 0 <= j <= k ==> ComparesTrue(r, charOffset, j)
    ensures StartsEntry(r, charOffset, k) && Total(r) <= INT16_MAX ==> found == At(SlotAt(r, k), 0)
  {
    EntryStartStopsIff(r, charOffset, k, found);
    if StartsEntry(r, charOffset, k) {
      StartsEntryIsLowerBound(r, charOffset, k);
      LowerBoundStopsIff(r, charOffset, k);
    } else {
      assert Start(r, k) == Start(r, k - 1) && Seen(r, k) == Seen(r, k - 1);
    }
    if Total(r) <= INT16_MAX {
      StartMonotone(r, k, CAPACITY);
      ComparesWithin(r, charOffset, k);
    }
  }

  /** One stored entry of two bytes, offset 1: the blank slot after it and byte 2^64 - 1. */
  lemma InteriorOffsetMissesEntry()
    ensures var r := Add(EmptyRing(BLANK), Entry(2, 2));
            Returns(r, 1, At(1, TWO64 - 1)) && !AsDocumented(r, 1, At(1, TWO64 - 1))
  {
    var r := Add(EmptyRing(BLANK), Entry(2, 2));
    BlankTail(r, 1);
    assert Seen(r, 0) == 0 && Seen(r, 1) == 2;
    assert StopsAt(r, 1, 1) && OffsetAt(r, 1, 1) == -1;
  }
}
