/**
 aesd_circular_buffer_find_entry_offset_for_fpos: the search for the slot of a byte offset,
 with its 16-bit accumulators and the conversions to `size_t` in its comparisons.
 */
module OffsetSearch {
  import opened CircularBuffer

  const TWO16: int := 0x1_0000
  const TWO64: int := 0x1_0000_0000_0000_0000
  const INT16_MAX: int := 0x7fff

  /** Conversion to `int16_t`. Since 2^16 divides 2^64 it forgets any earlier `size_t` wrap-around. */
  function ToInt16(x: int): (y: int)
    ensures -INT16_MAX - 1 <= y <= INT16_MAX
    ensures -INT16_MAX - 1 <= x <= INT16_MAX ==> y == x
  {
    if -INT16_MAX - 1 <= x <= INT16_MAX then x else (x + INT16_MAX + 1) % TWO16 - INT16_MAX - 1
  }

  /** Truncating a summand first makes no difference. */
  lemma TruncateSum(a: int, b: int)
    ensures ToInt16(ToInt16(a) + b) == ToInt16(a + b)
  {
    var q := (a + INT16_MAX + 1) / TWO16;
    assert ToInt16(a) == a - TWO16 * q;
    var x := ToInt16(a) + b;
    assert (x + TWO16 * q + INT16_MAX + 1) % TWO16 == (x + INT16_MAX + 1) % TWO16;
  }

  /** A number truncates to 0 exactly when it is a multiple of 2^16. */
  lemma TruncatesToZero(x: int)
    ensures ToInt16(x) == 0 <==> x % TWO16 == 0
  {
  }

  /** Conversion to a 64-bit `size_t`. */
  function ToSizeT(x: int): (y: nat)
    ensures y < TWO64
    ensures 0 <= x < TWO64 ==> y == x
    ensures -TWO64 <= x < 0 ==> y == x + TWO64
  {
    if 0 <= x < TWO64 then x else x % TWO64
  }

  // ----- Slots in reading order

  /** The physical index of the k-th slot counted from the cursor. */
  function SlotAt(r: Ring<Entry>, k: nat): (i: nat)
    requires Shape(r) && k <= CAPACITY
    ensures i < CAPACITY
  {
    if r.outOffs + k < CAPACITY then r.outOffs + k else r.outOffs + k - CAPACITY
  }

  /** The number of bytes stored before the k-th slot. */
  function Start(r: Ring<Entry>, k: nat): nat
    requires Shape(r) && k <= CAPACITY
  {
    if k == 0 then 0 else Start(r, k - 1) + r.slot[SlotAt(r, k - 1)].size
  }

  function Total(r: Ring<Entry>): nat
    requires Shape(r)
  {
    Start(r, CAPACITY)
  }

  lemma {:induction false} StartMonotone(r: Ring<Entry>, j: nat, k: nat)
    requires Shape(r) && j <= k <= CAPACITY
    ensures Start(r, j) <= Start(r, k)
  {
    if j < k {
      StartMonotone(r, j, k - 1);
    }
  }

  // ----- The boundaries as the loop sees them

  /** `accumulated_length` after k rounds. */
  function Accumulated(r: Ring<Entry>, k: nat): int
    requires Shape(r) && k <= CAPACITY
  {
    ToInt16(Start(r, k))
  }

  /** The same as an operand of a comparison with the offset. */
  function Seen(r: Ring<Entry>, k: nat): nat
    requires Shape(r) && k <= CAPACITY
  {
    ToSizeT(Accumulated(r, k))
  }

  /** `max_position` at the end of a full turn, as an operand of a comparison with the offset. */
  function LastSeen(r: Ring<Entry>): nat
    requires Shape(r)
  {
    ToSizeT(ToInt16(Accumulated(r, CAPACITY) - 1))
  }

  /** After a full turn an offset beyond the total seen is beyond the last position seen, unless both wrap. */
  lemma LastSeenBelow(r: Ring<Entry>)
    requires Shape(r) && Accumulated(r, CAPACITY) != 0
    ensures LastSeen(r) < Seen(r, CAPACITY)
  {
  }

  // ----- The loop body

  datatype Cursor = Cursor(accumulated: int, entryId: nat, offset: int)

  function SearchStart(r: Ring<Entry>, charOffset: nat): Cursor {
    Cursor(0, r.outOffs, ToInt16(charOffset))
  }

  predicate Continues(charOffset: nat, c: Cursor) {
    charOffset > ToSizeT(c.accumulated)
  }

  function SearchStep(r: Ring<Entry>, charOffset: nat, c: Cursor): Cursor
    requires |r.slot| == CAPACITY && c.entryId < CAPACITY
  {
    var acc := ToInt16(c.accumulated + r.slot[c.entryId].size);
    var id := Advance(c.entryId);
    var offset := ToInt16(charOffset - acc);
    Cursor(acc, id, if offset < 0 then ToInt16(offset + r.slot[id].size) else offset)
  }

  predicate GivesUp(r: Ring<Entry>, charOffset: nat, c: Cursor) {
    c.entryId == r.outOffs && charOffset > ToSizeT(ToInt16(c.accumulated - 1))
  }

  function Iterate(r: Ring<Entry>, charOffset: nat, n: nat): (c: Cursor)
    requires Shape(r)
    ensures c.entryId < CAPACITY
  {
    if n == 0 then SearchStart(r, charOffset) else SearchStep(r, charOffset, Iterate(r, charOffset, n - 1))
  }

  lemma RoundAdvances(r: Ring<Entry>, charOffset: nat, c: Cursor, k: nat)
    requires Shape(r) && k < CAPACITY && c.accumulated == Accumulated(r, k) && c.entryId == SlotAt(r, k)
    ensures SearchStep(r, charOffset, c).accumulated == Accumulated(r, k + 1)
    ensures SearchStep(r, charOffset, c).entryId == SlotAt(r, k + 1)
  {
    TruncateSum(Start(r, k), r.slot[SlotAt(r, k)].size);
  }

  /** The n-th round has reached boundary k. */
  predicate Reached(r: Ring<Entry>, charOffset: nat, n: nat, k: nat)
    requires Shape(r) && k <= CAPACITY
  {
    var c := Iterate(r, charOffset, n);
    c.accumulated == Accumulated(r, k) && c.entryId == SlotAt(r, k)
  }

  lemma NextReached(r: Ring<Entry>, charOffset: nat, n: nat, k: nat)
    requires Shape(r) && k < CAPACITY && Reached(r, charOffset, n, k)
    ensures Reached(r, charOffset, n + 1, k + 1)
  {
    RoundAdvances(r, charOffset, Iterate(r, charOffset, n), k);
  }

  lemma {:induction false} FirstTurn(r: Ring<Entry>, charOffset: nat, n: nat)
    requires Shape(r) && n <= CAPACITY
    ensures Reached(r, charOffset, n, n)
  {
    if n > 0 {
      FirstTurn(r, charOffset, n - 1);
      NextReached(r, charOffset, n - 1, n - 1);
    }
  }

  // ----- Does it stop?

  ghost predicate StopsAfter(r: Ring<Entry>, charOffset: nat, n: nat)
    requires Shape(r)
  {
    !Continues(charOffset, Iterate(r, charOffset, n)) || (n > 0 && GivesUp(r, charOffset, Iterate(r, charOffset, n)))
  }

  /** What a caller can check beforehand: some boundary inside the first turn is seen at or past the offset. */
  ghost predicate StopsEarly(r: Ring<Entry>, charOffset: nat)
    requires Shape(r)
  {
    exists k :: 1 <= k < CAPACITY && charOffset <= Seen(r, k)
  }

  lemma NextResidue(n: nat)
    ensures (n + 1) % CAPACITY == if n % CAPACITY + 1 == CAPACITY then 0 else n % CAPACITY + 1
  {
  }

  lemma TurnOver(r: Ring<Entry>, charOffset: nat, n: nat)
    requires Shape(r) && Accumulated(r, CAPACITY) == 0
    ensures Reached(r, charOffset, n, CAPACITY) ==> Reached(r, charOffset, n, 0)
  {
  }

  /** The exact condition under which the loop ends. */
  ghost predicate Ends(r: Ring<Entry>, charOffset: nat)
    requires Shape(r)
  {
    charOffset == 0 || Total(r) % TWO16 != 0 || StopsEarly(r, charOffset)
  }

  /** When the total is a multiple of 2^16, every turn is like the first. */
  lemma {:induction false} EveryTurn(r: Ring<Entry>, charOffset: nat, n: nat)
    requires Shape(r) && Accumulated(r, CAPACITY) == 0
    ensures Reached(r, charOffset, n, n % CAPACITY)
  {
    if n > 0 {
      EveryTurn(r, charOffset, n - 1);
      NextReached(r, charOffset, n - 1, (n - 1) % CAPACITY);
      TurnOver(r, charOffset, n);
      NextResidue(n - 1);
    }
  }

  lemma NeverStops(r: Ring<Entry>, charOffset: nat, n: nat)
    requires Shape(r) && 0 < charOffset < TWO64 && Accumulated(r, CAPACITY) == 0 && !StopsEarly(r, charOffset)
    ensures !StopsAfter(r, charOffset, n)
  {
    var k := n % CAPACITY;
    EveryTurn(r, charOffset, n);
    assert k > 0 ==> Seen(r, k) < charOffset;
  }

  /**
   For every ring and every offset: the loop ends, within ten rounds, exactly when the offset is 0,
   the total is not a multiple of 2^16, or a boundary inside the first turn is seen at or past the
   offset. An empty ring and a ring of 65536 bytes are cases in which it need not.
   */
  lemma SearchStopsIff(r: Ring<Entry>, charOffset: nat)
    requires Shape(r) && charOffset < TWO64
    ensures (exists n: nat :: StopsAfter(r, charOffset, n)) <==> Ends(r, charOffset)
    ensures (exists n: nat :: StopsAfter(r, charOffset, n)) ==>
            exists n: nat :: n <= CAPACITY && StopsAfter(r, charOffset, n)
  {
    TruncatesToZero(Total(r));
    if charOffset == 0 {
      assert StopsAfter(r, charOffset, 0);
    } else if StopsEarly(r, charOffset) {
      var k :| 1 <= k < CAPACITY && charOffset <= Seen(r, k);
      FirstTurn(r, charOffset, k);
      assert StopsAfter(r, charOffset, k);
    } else if Total(r) % TWO16 != 0 {
      FirstTurn(r, charOffset, CAPACITY);
      LastSeenBelow(r);
      assert StopsAfter(r, charOffset, CAPACITY);
    } else {
      forall n: nat ensures !StopsAfter(r, charOffset, n) {
        NeverStops(r, charOffset, n);
      }
    }
  }

  // ----- What the search returns

  /** The loop leaves through its condition at boundary k. */
  ghost predicate StopsAt(r: Ring<Entry>, charOffset: nat, k: nat)
    requires Shape(r)
  {
    && k <= CAPACITY && charOffset <= Seen(r, k)
    && (forall j :: 0 <= j < k ==> Seen(r, j) < charOffset)
    && (k == CAPACITY ==> charOffset <= LastSeen(r))
  }

  /** The loop leaves through its NULL return, at the end of the first turn. */
  ghost predicate Misses(r: Ring<Entry>, charOffset: nat)
    requires Shape(r)
  {
    (forall j :: 0 <= j < CAPACITY ==> Seen(r, j) < charOffset) && LastSeen(r) < charOffset
  }

  /** `offset` after k rounds. */
  function OffsetAt(r: Ring<Entry>, charOffset: nat, k: nat): int
    requires Shape(r) && k <= CAPACITY
  {
    var offset := ToInt16(charOffset - Accumulated(r, k));
    if offset < 0 then ToInt16(offset + r.slot[SlotAt(r, k)].size) else offset
  }

  datatype Found = NotFound | At(slot: nat, byteOffset: nat)

  /** The exact result, for every ring. */
  ghost predicate Returns(r: Ring<Entry>, charOffset: nat, found: Found)
    requires Shape(r)
  {
    match found
    case NotFound => Misses(r, charOffset)
    case At(_, _) => exists k :: StopsAt(r, charOffset, k)
                              && found == At(SlotAt(r, k), ToSizeT(OffsetAt(r, charOffset, k)))
  }

  /** The state of a search that has made `n` rounds and not ended in the middle of one. */
  ghost predicate AfterRounds(r: Ring<Entry>, charOffset: nat, n: nat, c: Cursor)
    requires Shape(r)
  {
    && n <= CAPACITY
    && c.accumulated == Accumulated(r, n)
    && c.entryId == SlotAt(r, n)
    && (forall j :: 0 <= j < n ==> Seen(r, j) < charOffset)
    && (n == CAPACITY ==> charOffset <= LastSeen(r))
    && (n > 0 ==> c.offset == OffsetAt(r, charOffset, n))
    && (n == 0 ==> c.offset == ToInt16(charOffset))
  }

  /** A search that ends at all has ended when the first turn is over. */
  lemma NoSecondTurn(r: Ring<Entry>, charOffset: nat, c: Cursor)
    requires Shape(r) && AfterRounds(r, charOffset, CAPACITY, c) && Ends(r, charOffset)
    ensures !Continues(charOffset, c)
  {
    TruncatesToZero(Total(r));
    if Accumulated(r, CAPACITY) != 0 {
      LastSeenBelow(r);
    }
  }

  lemma SearchRound(r: Ring<Entry>, charOffset: nat, n: nat, c: Cursor)
    requires Shape(r) && Ends(r, charOffset) && AfterRounds(r, charOffset, n, c) && Continues(charOffset, c)
    ensures n < CAPACITY
    ensures var c' := SearchStep(r, charOffset, c);
            if GivesUp(r, charOffset, c') then Misses(r, charOffset) else AfterRounds(r, charOffset, n + 1, c')
  {
    if n == CAPACITY {
      NoSecondTurn(r, charOffset, c);
    } else {
      RoundAdvances(r, charOffset, c, n);
    }
  }

  lemma SearchConcludes(r: Ring<Entry>, charOffset: nat, n: nat, c: Cursor)
    requires Shape(r) && AfterRounds(r, charOffset, n, c) && !Continues(charOffset, c)
    ensures Returns(r, charOffset, At(c.entryId, ToSizeT(c.offset)))
  {
    assert StopsAt(r, charOffset, n);
    assert n == 0 ==> charOffset == 0;
  }

  /** The assignments in the body of the loop. */
  method Round(buffer: Buffer, charOffset: nat, accumulated: int, entryId: nat, offset: int)
    returns (accumulated': int, entryId': nat, offset': int)
    requires buffer.Valid() && entryId < CAPACITY
    ensures Cursor(accumulated', entryId', offset') ==
            SearchStep(buffer.Model(), charOffset, Cursor(accumulated, entryId, offset))
  {
    accumulated' := ToInt16(accumulated + buffer.entry[entryId].size);
    entryId' := Advance(entryId);
    offset' := ToInt16(charOffset - accumulated');
    if offset' < 0 {
      offset' := ToInt16(offset' + buffer.entry[entryId'].size);
    }
  }

  /**
   The C function. It returns a slot and a byte in it (`At`) or NULL (`NotFound`); a NULL buffer
   gives NULL. `rounds` counts the loop iterations. The condition on ring and offset is the one under
   which the loop ends at all.
   */
  method FindEntryOffsetForFpos(buffer: Buffer?, charOffset: nat) returns (found: Found, ghost rounds: nat)
    requires charOffset < TWO64
    requires buffer != null ==> buffer.Valid() && Shape(buffer.Model())
    requires buffer != null ==> Ends(buffer.Model(), charOffset)
    ensures rounds <= CAPACITY
    ensures if buffer == null then found == NotFound else Returns(buffer.Model(), charOffset, found)
  {
    rounds := 0;
    if buffer == null {
      return NotFound, 0;
    }
    ghost var r := buffer.Model();
    var accumulated: int := 0;
    var entryId: nat := buffer.outOffs;
    var offset := ToInt16(charOffset);
    while charOffset > ToSizeT(accumulated)
      invariant entryId < CAPACITY && AfterRounds(r, charOffset, rounds, Cursor(accumulated, entryId, offset))
      decreases CAPACITY - rounds
    {
      SearchRound(r, charOffset, rounds, Cursor(accumulated, entryId, offset));
      accumulated, entryId, offset := Round(buffer, charOffset, accumulated, entryId, offset);
      rounds := rounds + 1;
      var maxPosition := ToInt16(accumulated - 1);
      if entryId == buffer.outOffs && charOffset > ToSizeT(maxPosition) {
        return NotFound, rounds;
      }
    }
    SearchConcludes(r, charOffset, rounds, Cursor(accumulated, entryId, offset));
    found := At(entryId, ToSizeT(offset));
  }

  lemma StopsAtUnique(r: Ring<Entry>, charOffset: nat, j: nat, k: nat)
    requires Shape(r) && StopsAt(r, charOffset, j) && StopsAt(r, charOffset, k)
    ensures j == k
  {
  }

  lemma MissNeverStops(r: Ring<Entry>, charOffset: nat)
    requires Shape(r) && Misses(r, charOffset)
    ensures forall k :: !StopsAt(r, charOffset, k)
  {
  }

  /** The result is unique. */
  lemma ReturnsUnique(r: Ring<Entry>, charOffset: nat, found: Found, found': Found)
    requires Shape(r) && Returns(r, charOffset, found) && Returns(r, charOffset, found')
    ensures found == found'
  {
    if Misses(r, charOffset) {
      MissNeverStops(r, charOffset);
    }
  }

  /** One entry of 65536 bytes, offset 1: data is stored, and the loop never ends. */
  lemma FullWrapLoops(n: nat)
    ensures !StopsAfter(Add(EmptyRing(BLANK), Entry(2, TWO16)), 1, n)
  {
    var r := Add(EmptyRing(BLANK), Entry(2, TWO16));
    forall k | 1 <= k <= CAPACITY ensures Start(r, k) == TWO16 {
      BlankTail(r, k);
    }
    TruncatesToZero(TWO16);
    NeverStops(r, 1, n);
  }

  lemma {:induction false} BlankTail(r: Ring<Entry>, k: nat)
    requires Shape(r) && r.outOffs == 0 && 1 <= k <= CAPACITY
    requires forall i :: 1 <= i < CAPACITY ==> r.slot[i].size == 0
    ensures Start(r, k) == r.slot[0].size
  {
    if k > 1 {
      BlankTail(r, k - 1);
    } else {
      assert Start(r, 0) == 0;
    }
  }
}
