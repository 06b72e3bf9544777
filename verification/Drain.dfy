/**
 Reading the device to its end: successive reads of one request size, from position 0. The read counter
 and the cursor both persist between drains.
 */
module Draining {
  import opened CircularBuffer
  import opened Kernel
  import opened DeviceSpec
  import opened Ownership
  import opened OffsetSearch
  import opened LineHistory
  import opened Commits

  /** The device, the file position and the data returned so far. */
  datatype Drained = Drained(dev: Dev, fPos: nat, data: seq<seq<byte>>)

  function ReadOnce(p: Drained, count: nat): (r: Drained)
    requires Shape(p.dev.bufferP)
    ensures Shape(r.dev.bufferP) && |r.data| == |p.data| + 1
  {
    var r := Read(p.dev, p.fPos, count, true);
    Drained(r.dev, r.fPos, p.data + [r.data])
  }

  /** `k` more reads of the same open file. */
  function ReadsFrom(p: Drained, count: nat, k: nat): (r: Drained)
    requires Shape(p.dev.bufferP)
    ensures Shape(r.dev.bufferP) && |r.data| == |p.data| + k
    decreases k
  {
    if k == 0 then p else ReadsFrom(ReadOnce(p, count), count, k - 1)
  }

  lemma ReadsFirst(p: Drained, count: nat, k: nat)
    requires Shape(p.dev.bufferP)
    ensures ReadsFrom(p, count, k + 1) == ReadsFrom(ReadOnce(p, count), count, k)
  {
  }

  lemma {:induction false} ReadsCompose(p: Drained, count: nat, a: nat, b: nat)
    requires Shape(p.dev.bufferP)
    ensures ReadsFrom(p, count, a + b) == ReadsFrom(ReadsFrom(p, count, a), count, b)
    decreases a
  {
    if a > 0 {
      ReadsFirst(p, count, a - 1);
      ReadsFirst(p, count, a - 1 + b);
      ReadsCompose(ReadOnce(p, count), count, a - 1, b);
    }
  }

  /** `k` reads from the start. */
  function Drain(d: Dev, count: nat, k: nat): (r: Drained)
    requires Shape(d.bufferP)
    ensures Shape(r.dev.bufferP) && |r.data| == k
  {
    ReadsFrom(Drained(d, 0, []), count, k)
  }

  lemma DrainFurther(d: Dev, count: nat, a: nat, b: nat)
    requires Shape(d.bufferP)
    ensures Drain(d, count, a + b) == ReadsFrom(Drain(d, count, a), count, b)
  {
    ReadsCompose(Drained(d, 0, []), count, a, b);
  }

  /** The strings in the ten slots, in the order in which reads visit them. */
  function FromCursor(d: Dev): (s: seq<seq<byte>>)
    requires Shape(d.bufferP)
    ensures |s| == CAPACITY
  {
    seq(CAPACITY, k requires 0 <= k < CAPACITY => Bytes(d.heap, d.bufferP.slot[SlotAt(d.bufferP, k)]))
  }

  function Min(a: nat, b: nat): nat { if a < b then a else b }

  // ----- One entry, with requests of any size

  /** How often reads of `count` bytes fit into `size` bytes. */
  function FullReads(size: nat, count: nat): nat
    requires count > 0
  {
    if size < count then 0 else 1 + FullReads(size - count, count)
  }

  function Copies(x: seq<byte>, k: nat): (s: seq<seq<byte>>)
    ensures |s| == k
  {
    seq(k, i => x)
  }

  function Front(e: seq<byte>, count: nat): seq<byte> {
    if count <= |e| then e[..count] else e
  }

  /**
   What reads of `count` bytes return for an entry, from position `from` to the read that moves on:
   the entry's first bytes over and over, and at last as many of them as are left.
   */
  function Pieces(e: seq<byte>, count: nat, from: nat): (s: seq<seq<byte>>)
    requires count > 0 && from <= |e|
    ensures |s| == FullReads(|e| - from, count) + 1
    decreases |e| - from
  {
    if from + count > |e| then [e[..|e| - from]] else [Front(e, count)] + Pieces(e, count, from + count)
  }

  lemma CopiesNext(x: seq<byte>, k: nat)
    ensures Copies(x, k + 1) == [x] + Copies(x, k)
  {
  }

  /** The device once `n` reads have been made and the cursor has moved on. */
  function MovedOn(d: Dev, n: nat): (d': Dev)
    requires Shape(d.bufferP)
    ensures Shape(d'.bufferP)
  {
    d.(readCounter := d.readCounter + n, bufferP := d.bufferP.(outOffs := Advance(d.bufferP.outOffs)))
  }

  function CurrentEntry(d: Dev): seq<byte>
    requires Shape(d.bufferP)
  {
    Bytes(d.heap, d.bufferP.slot[d.bufferP.outOffs])
  }

  lemma ReadPiece(p: Drained, count: nat)
    requires Owned(p.dev) && count > 0 && CurrentEntry(p.dev) != [] && p.fPos <= |CurrentEntry(p.dev)|
    requires p.dev.readCounter < 10
    ensures var e := CurrentEntry(p.dev);
            ReadOnce(p, count) == if p.fPos + count > |e|
              then Drained(MovedOn(p.dev, 1), 0, p.data + [e[..|e| - p.fPos]])
              else Drained(p.dev.(readCounter := p.dev.readCounter + 1), p.fPos + count, p.data + [e[..count]])
  {
    assert Denotes(p.dev.heap, p.dev.bufferP.slot[p.dev.bufferP.outOffs]);
  }

  /** A read that does not reach the end of the entry. */
  function StayedOn(p: Drained, count: nat): (p': Drained)
    requires Shape(p.dev.bufferP) && count <= |CurrentEntry(p.dev)|
    ensures Shape(p'.dev.bufferP)
  {
    Drained(p.dev.(readCounter := p.dev.readCounter + 1), p.fPos + count, p.data + [Front(CurrentEntry(p.dev), count)])
  }

  lemma ReadStays(p: Drained, count: nat)
    requires Owned(p.dev) && count > 0 && p.fPos + count <= |CurrentEntry(p.dev)| && p.dev.readCounter < 10
    ensures ReadOnce(p, count) == StayedOn(p, count)
    ensures Owned(StayedOn(p, count).dev) && CurrentEntry(StayedOn(p, count).dev) == CurrentEntry(p.dev)
  {
    ReadPiece(p, count);
    CursorMoves(p.dev, StayedOn(p, count).dev);
  }

  /** The reads before the last one of an entry stay on it. */
  lemma {:induction false} ReadsWithin(p: Drained, count: nat, k: nat)
    requires Owned(p.dev) && count > 0 && p.fPos <= |CurrentEntry(p.dev)|
    requires k <= FullReads(|CurrentEntry(p.dev)| - p.fPos, count) && p.dev.readCounter + k <= 10
    ensures var r := ReadsFrom(p, count, k);
            && r.dev == p.dev.(readCounter := p.dev.readCounter + k)
            && r.data == p.data + Copies(Front(CurrentEntry(p.dev), count), k)
    decreases k
  {
    if k > 0 {
      ReadStays(p, count);
      ReadsWithin(StayedOn(p, count), count, k - 1);
      ReadsFirst(p, count, k - 1);
      CopiesNext(Front(CurrentEntry(p.dev), count), k - 1);
    }
  }

  lemma ReadEndsEntry(p: Drained, count: nat)
    requires Owned(p.dev) && CurrentEntry(p.dev) != [] && p.fPos <= |CurrentEntry(p.dev)| < p.fPos + count
    requires p.dev.readCounter < 10
    ensures ReadsFrom(p, count, 1) == Drained(MovedOn(p.dev, 1), 0, p.data + Pieces(CurrentEntry(p.dev), count, p.fPos))
  {
    ReadPiece(p, count);
    ReadsFirst(p, count, 0);
  }

  lemma StayedThenMoved(p: Drained, count: nat, rest: seq<seq<byte>>)
    requires Shape(p.dev.bufferP) && count <= |CurrentEntry(p.dev)|
    ensures var p' := StayedOn(p, count);
            Drained(MovedOn(p'.dev, |rest|), 0, p'.data + rest) ==
            Drained(MovedOn(p.dev, 1 + |rest|), 0, p.data + ([Front(CurrentEntry(p.dev), count)] + rest))
  {
  }

  /** Reading an entry to its end. */
  lemma {:induction false} ReadsPieces(p: Drained, count: nat)
    requires Owned(p.dev) && count > 0 && CurrentEntry(p.dev) != [] && p.fPos <= |CurrentEntry(p.dev)|
    requires p.dev.readCounter + |Pieces(CurrentEntry(p.dev), count, p.fPos)| <= 10
    ensures var pieces := Pieces(CurrentEntry(p.dev), count, p.fPos);
            ReadsFrom(p, count, |pieces|) == Drained(MovedOn(p.dev, |pieces|), 0, p.data + pieces)
    decreases |CurrentEntry(p.dev)| - p.fPos
  {
    var e := CurrentEntry(p.dev);
    if p.fPos + count > |e| {
      ReadEndsEntry(p, count);
    } else {
      var rest := Pieces(e, count, p.fPos + count);
      ReadStays(p, count);
      ReadsPieces(StayedOn(p, count), count);
      ReadsFirst(p, count, |rest|);
      StayedThenMoved(p, count, rest);
    }
  }

  // ----- How many reads an entry costs, and what they add up to

  lemma {:induction false} NextMultiple(c: nat, q: nat, p: nat)
    requires q < p
    ensures c * q + c <= c * p
  {
    assert c * p == c * (p - 1) + c;
    if q < p - 1 {
      NextMultiple(c, q, p - 1);
    }
  }

  lemma QuotientUnique(c: nat, q: nat, r: nat, p: nat, t: nat)
    requires r < c && t < c && c * q + r == c * p + t
    ensures q == p
  {
    if q < p {
      NextMultiple(c, q, p);
    } else if p < q {
      NextMultiple(c, p, q);
    }
  }

  lemma DivideLess(x: nat, c: nat)
    requires 0 < c <= x
    ensures x / c == (x - c) / c + 1
  {
    var q, r := (x - c) / c, (x - c) % c;
    assert c * (q + 1) == c * q + c;
    QuotientUnique(c, q + 1, r, x / c, x % c);
  }

  lemma {:induction false} FullReadsIs(size: nat, count: nat)
    requires count > 0
    ensures FullReads(size, count) == size / count
  {
    if size >= count {
      FullReadsIs(size - count, count);
      DivideLess(size, count);
    }
  }

  /** An entry costs its size divided by the request, plus one, of the ten reads the counter allows. */
  lemma EntryCost(e: seq<byte>, count: nat, from: nat)
    requires count > 0 && from <= |e|
    ensures |Pieces(e, count, from)| == (|e| - from) / count + 1
  {
    FullReadsIs(|e| - from, count);
  }

  lemma ConcatFront(x: seq<byte>, rest: seq<seq<byte>>)
    ensures Concat([x] + rest) == x + Concat(rest)
  {
    ConcatAppend([x], rest);
    assert Concat([x]) == x;
  }

  /** The pieces have the length of what was left of the entry, and only bytes from its front. */
  lemma {:induction false} PiecesFromFront(e: seq<byte>, count: nat, from: nat)
    requires count > 0 && from <= |e|
    ensures |Concat(Pieces(e, count, from))| == |e| - from
    ensures count < |e| && NoEol(e, 0, count) ==>
              NoEol(Concat(Pieces(e, count, from)), 0, |Concat(Pieces(e, count, from))|)
    decreases |e| - from
  {
    if from + count > |e| {
      ConcatFront(e[..|e| - from], []);
    } else {
      PiecesFromFront(e, count, from + count);
      ConcatFront(Front(e, count), Pieces(e, count, from + count));
    }
  }

  /** An entry that ends in its only newline is returned as it is exactly by requests of at least its size. */
  lemma PiecesWholeIff(e: seq<byte>, count: nat)
    requires count > 0 && e != [] && Complete(e)
    ensures Concat(Pieces(e, count, 0)) == e <==> count >= |e|
  {
    PiecesFromFront(e, count, 0);
    if count > |e| {
      ConcatFront(e, []);
      assert e[..|e|] == e;
    } else if count == |e| {
      ConcatFront(e, Pieces(e, count, count));
      ConcatFront([], []);
      assert e[..|e|] == e && Pieces(e, count, count) == [[]];
    } else {
      assert NoEol(e, 0, count);
      assert e[|e| - 1] == NEWLINE;
    }
  }

  lemma ReadsWholeEntry(d: Dev, count: nat)
    requires Owned(d) && count > 0 && CurrentEntry(d) != []
    requires d.readCounter + |Pieces(CurrentEntry(d), count, 0)| <= 10
    ensures var pieces := Pieces(CurrentEntry(d), count, 0);
            Drain(d, count, |pieces|) == Drained(MovedOn(d, |pieces|), 0, pieces)
  {
    ReadsPieces(Drained(d, 0, []), count);
    assert [] + Pieces(CurrentEntry(d), count, 0) == Pieces(CurrentEntry(d), count, 0);
  }

  lemma CurrentComplete(ops: seq<Op>)
    ensures Complete(CurrentEntry(Run(INITIAL_DEV, ops)))
  {
    var d := Run(INITIAL_DEV, ops);
    RunSlotsComplete(ops);
    assert View(d).slot[d.bufferP.outOffs] == CurrentEntry(d);
  }

  /** What the reads of one entry leave behind, and when they return it. */
  ghost predicate ReadBack(d: Dev, count: nat, looks: nat)
    requires Shape(d.bufferP)
  {
    var p := Drain(d, count, looks);
    && p.dev == MovedOn(d, looks) && p.fPos == 0
    && (Concat(p.data) == CurrentEntry(d) <==> count >= |CurrentEntry(d)|)
  }

  lemma CompleteReadBack(d: Dev, count: nat)
    requires Owned(d) && count > 0 && CurrentEntry(d) != [] && Complete(CurrentEntry(d))
    requires d.readCounter + |CurrentEntry(d)| / count + 1 <= 10
    ensures ReadBack(d, count, |CurrentEntry(d)| / count + 1)
  {
    EntryCost(CurrentEntry(d), count, 0);
    ReadsWholeEntry(d, count);
    PiecesWholeIff(CurrentEntry(d), count);
  }

  /**
   In every reachable state, with enough of the counter left: reading the current entry from its
   start takes size / request + 1 reads, and they return it if and only if the request is at least
   its size.
   */
  lemma EntryReadWholeIff(ops: seq<Op>, count: nat)
    requires count > 0
    requires var d := Run(INITIAL_DEV, ops); CurrentEntry(d) != [] && d.readCounter + |CurrentEntry(d)| / count + 1 <= 10
    ensures var d := Run(INITIAL_DEV, ops); ReadBack(d, count, |CurrentEntry(d)| / count + 1)
  {
    RunOwned(ops);
    CurrentComplete(ops);
    CompleteReadBack(Run(INITIAL_DEV, ops), count);
  }

  // ----- Several entries

  /** The reads that the first m entries from the cursor cost. */
  function Cost(d: Dev, count: nat, m: nat): nat
    requires Shape(d.bufferP) && count > 0 && m <= CAPACITY
  {
    if m == 0 then 0 else Cost(d, count, m - 1) + FullReads(|FromCursor(d)[m - 1]|, count) + 1
  }

  /** What these reads return. */
  function Returned(d: Dev, count: nat, m: nat): seq<seq<byte>>
    requires Shape(d.bufferP) && count > 0 && m <= CAPACITY
  {
    AllPieces(FromCursor(d)[..m], count)
  }

  /** The device after m entries, read by n reads. */
  function Advanced(d: Dev, m: nat, n: nat): (d': Dev)
    requires Shape(d.bufferP) && m <= CAPACITY
    ensures Shape(d'.bufferP)
  {
    d.(readCounter := d.readCounter + n, bufferP := d.bufferP.(outOffs := SlotAt(d.bufferP, m)))
  }

  lemma AdvancedEntry(d: Dev, m: nat, n: nat)
    requires Owned(d) && m < CAPACITY
    ensures Owned(Advanced(d, m, n)) && CurrentEntry(Advanced(d, m, n)) == FromCursor(d)[m]
  {
    CursorMoves(d, Advanced(d, m, n));
  }

  lemma AdvancedOnce(d: Dev, m: nat, n: nat, k: nat)
    requires Shape(d.bufferP) && m < CAPACITY
    ensures MovedOn(Advanced(d, m, n), k) == Advanced(d, m + 1, n + k)
  {
  }

  lemma NextEntryFrom(d: Dev, count: nat, m: nat, n: nat, data: seq<seq<byte>>)
    requires Owned(d) && count > 0 && m < CAPACITY && FromCursor(d)[m] != []
    requires d.readCounter + n + |Pieces(FromCursor(d)[m], count, 0)| <= 10
    ensures var pieces := Pieces(FromCursor(d)[m], count, 0);
            ReadsFrom(Drained(Advanced(d, m, n), 0, data), count, |pieces|)
            == Drained(Advanced(d, m + 1, n + |pieces|), 0, data + pieces)
  {
    AdvancedEntry(d, m, n);
    ReadsPieces(Drained(Advanced(d, m, n), 0, data), count);
    AdvancedOnce(d, m, n, |Pieces(FromCursor(d)[m], count, 0)|);
  }

  /** The drain after the reads that the first m entries cost: each entry in pieces, and nothing else. */
  predicate DrainedBy(d: Dev, count: nat, m: nat)
    requires Shape(d.bufferP) && count > 0 && m <= CAPACITY
  {
    Drain(d, count, Cost(d, count, m)) == Drained(Advanced(d, m, Cost(d, count, m)), 0, Returned(d, count, m))
  }

  lemma DrainNextEntry(d: Dev, count: nat, m: nat)
    requires Owned(d) && count > 0 && m < CAPACITY && FromCursor(d)[m] != []
    requires DrainedBy(d, count, m) && d.readCounter + Cost(d, count, m + 1) <= 10
    ensures DrainedBy(d, count, m + 1)
  {
    var n, pieces := Cost(d, count, m), Pieces(FromCursor(d)[m], count, 0);
    assert Cost(d, count, m + 1) == n + |pieces|;
    assert FromCursor(d)[..m + 1][..m] == FromCursor(d)[..m];
    assert Returned(d, count, m + 1) == Returned(d, count, m) + pieces;
    NextEntryFrom(d, count, m, n, Returned(d, count, m));
    DrainFurther(d, count, n, |pieces|);
  }

  /** Whole entries, as long as the counter allows. */
  lemma {:induction false} DrainEntries(d: Dev, count: nat, m: nat)
    requires Owned(d) && count > 0 && m <= CAPACITY && d.readCounter + Cost(d, count, m) <= 10
    requires forall j :: 0 <= j < m ==> FromCursor(d)[j] != []
    ensures DrainedBy(d, count, m)
  {
    if m > 0 {
      DrainEntries(d, count, m - 1);
      DrainNextEntry(d, count, m - 1);
    }
  }

  /** The number of non-empty slots a drain finds before the first empty one. */
  ghost predicate Occupied(d: Dev, n: nat)
    requires Shape(d.bufferP)
  {
    && n <= CAPACITY
    && (forall j :: 0 <= j < n ==> FromCursor(d)[j] != [])
    && (n < CAPACITY ==> FromCursor(d)[n] == [])
  }

  lemma {:induction false} CostAtLeast(d: Dev, count: nat, m: nat)
    requires Shape(d.bufferP) && count > 0 && m <= CAPACITY
    ensures Cost(d, count, m) >= m
  {
    if m > 0 {
      CostAtLeast(d, count, m - 1);
    }
  }

  lemma ReadEnds(d: Dev, fPos: nat, count: nat)
    requires Owned(d)
    ensures CurrentEntry(d) == [] ==> Read(d, fPos, count, true) == ReadResult(d, fPos, 0, [])
    ensures CurrentEntry(d) != [] && d.readCounter == 10 ==>
              Read(d, fPos, count, true) == ReadResult(d.(readCounter := 0), fPos, 0, [])
  {
    assert Denotes(d.heap, d.bufferP.slot[d.bufferP.outOffs]);
  }

  /** A drain that reaches the first empty slot. */
  lemma DrainEndsAtEmpty(d: Dev, count: nat, n: nat)
    requires Owned(d) && count > 0 && Occupied(d, n) && n < CAPACITY && d.readCounter + Cost(d, count, n) <= 10
    ensures var p := Drain(d, count, Cost(d, count, n));
            && p == Drained(Advanced(d, n, Cost(d, count, n)), 0, Returned(d, count, n))
            && Read(p.dev, p.fPos, count, true) == ReadResult(p.dev, 0, 0, [])
  {
    DrainEntries(d, count, n);
    AdvancedEntry(d, n, Cost(d, count, n));
    ReadEnds(Advanced(d, n, Cost(d, count, n)), 0, count);
  }

  /** After k of the reads that the m-th entry costs, the counter is at ten and the next read returns 0. */
  predicate EndsWithin(q: Drained, d: Dev, count: nat, m: nat, n: nat, k: nat, data: seq<seq<byte>>)
    requires Shape(d.bufferP) && Shape(q.dev.bufferP) && m < CAPACITY
  {
    && q.dev == Advanced(d, m, n + k) && q.data == data + Copies(Front(FromCursor(d)[m], count), k)
    && Read(q.dev, q.fPos, count, true) == ReadResult(q.dev.(readCounter := 0), q.fPos, 0, [])
  }

  lemma CounterEndsWithin(d: Dev, count: nat, m: nat, n: nat, k: nat, data: seq<seq<byte>>)
    requires Owned(d) && count > 0 && m < CAPACITY && FromCursor(d)[m] != []
    requires d.readCounter + n + k == 10 && k <= FullReads(|FromCursor(d)[m]|, count)
    ensures EndsWithin(ReadsFrom(Drained(Advanced(d, m, n), 0, data), count, k), d, count, m, n, k, data)
  {
    var p := Drained(Advanced(d, m, n), 0, data);
    AdvancedEntry(d, m, n);
    ReadsWithin(p, count, k);
    AdvancedEntry(d, m, n + k);
    ReadEnds(Advanced(d, m, n + k), ReadsFrom(p, count, k).fPos, count);
  }

  lemma CounterEndsAfter(d: Dev, count: nat, m: nat, n: nat, k: nat, data: seq<seq<byte>>)
    requires Owned(d) && count > 0 && m < CAPACITY && FromCursor(d)[m] != []
    requires Drain(d, count, n) == Drained(Advanced(d, m, n), 0, data)
    requires d.readCounter + n + k == 10 && k <= FullReads(|FromCursor(d)[m]|, count)
    ensures EndsWithin(Drain(d, count, n + k), d, count, m, n, k, data)
  {
    CounterEndsWithin(d, count, m, n, k, data);
    DrainFurther(d, count, n, k);
  }

  /**
   A drain whose entries cost more than the counter has left is cut off inside the first that does not
   fit, and the read after that returns 0 and resets the counter.
   */
  lemma DrainEndsAtCounter(d: Dev, count: nat, m: nat, k: nat)
    requires Owned(d) && count > 0 && m < CAPACITY && forall j :: 0 <= j <= m ==> FromCursor(d)[j] != []
    requires d.readCounter + Cost(d, count, m) + k == 10 && k <= |FromCursor(d)[m]| / count
    ensures var n := Cost(d, count, m);
            EndsWithin(Drain(d, count, n + k), d, count, m, n, k, Returned(d, count, m))
  {
    DrainEntries(d, count, m);
    FullReadsIs(|FromCursor(d)[m]|, count);
    CounterEndsAfter(d, count, m, Cost(d, count, m), k, Returned(d, count, m));
  }

  /** The ten entries of a full ring leave the counter at ten, and the read after them resets it. */
  lemma DrainEndsAtTen(d: Dev, count: nat)
    requires Owned(d) && count > 0 && Occupied(d, CAPACITY) && d.readCounter + Cost(d, count, CAPACITY) <= 10
    ensures d.readCounter == 0 && Cost(d, count, CAPACITY) == 10
    ensures Drain(d, count, 10) == Drained(Advanced(d, CAPACITY, 10), 0, Returned(d, count, CAPACITY))
    ensures Read(Advanced(d, CAPACITY, 10), 0, count, true) == ReadResult(d, 0, 0, [])
  {
    CostAtLeast(d, count, CAPACITY);
    DrainEntries(d, count, CAPACITY);
    FullTurn(d, 10);
    ReadEnds(Advanced(d, CAPACITY, 10), 0, count);
  }

  lemma FullTurn(d: Dev, n: nat)
    requires Owned(d)
    ensures Owned(Advanced(d, CAPACITY, n)) && CurrentEntry(Advanced(d, CAPACITY, n)) == FromCursor(d)[0]
  {
    CursorMoves(d, Advanced(d, CAPACITY, n));
  }

  lemma SplitEqual(a: seq<byte>, b: seq<byte>, a': seq<byte>, b': seq<byte>)
    requires |a| == |a'|
    ensures a + b == a' + b' <==> a == a' && b == b'
  {
    assert (a + b)[..|a|] == a && (a + b)[|a|..] == b;
    assert (a' + b')[..|a|] == a' && (a' + b')[|a|..] == b';
  }

  /** What piecewise reads of the strings return. */
  function AllPieces(ss: seq<seq<byte>>, count: nat): seq<seq<byte>>
    requires count > 0
  {
    if ss == [] then [] else AllPieces(ss[..|ss| - 1], count) + Pieces(ss[|ss| - 1], count, 0)
  }

  /** It is what is stored if and only if no string is longer than the request; its length is right anyhow. */
  lemma {:induction false} AllPiecesWholeIff(ss: seq<seq<byte>>, count: nat)
    requires count > 0 && forall i :: 0 <= i < |ss| ==> ss[i] != [] && Complete(ss[i])
    ensures |Concat(AllPieces(ss, count))| == |Concat(ss)|
    ensures Concat(AllPieces(ss, count)) == Concat(ss) <==> forall i :: 0 <= i < |ss| ==> |ss[i]| <= count
  {
    if ss != [] {
      var init, e := ss[..|ss| - 1], ss[|ss| - 1];
      assert ss == init + [e];
      AllPiecesWholeIff(init, count);
      ConcatAppend(AllPieces(init, count), Pieces(e, count, 0));
      PiecesFromFront(e, count, 0);
      PiecesWholeIff(e, count);
      SplitEqual(Concat(AllPieces(init, count)), Concat(Pieces(e, count, 0)), Concat(init), e);
    }
  }

  lemma DrainWholeIff(d: Dev, count: nat, m: nat)
    requires Owned(d) && count > 0 && m <= CAPACITY && d.readCounter + Cost(d, count, m) <= 10
    requires forall j :: 0 <= j < m ==> FromCursor(d)[j] != [] && Complete(FromCursor(d)[j])
    ensures Concat(Drain(d, count, Cost(d, count, m)).data) == Concat(FromCursor(d)[..m]) <==>
            forall j :: 0 <= j < m ==> |FromCursor(d)[j]| <= count
  {
    var entries := FromCursor(d)[..m];
    DrainEntries(d, count, m);
    AllPiecesWholeIff(entries, count);
    assert forall j :: 0 <= j < m ==> entries[j] == FromCursor(d)[j];
  }

  lemma FromCursorComplete(ops: seq<Op>)
    ensures var d := Run(INITIAL_DEV, ops); forall j :: 0 <= j < CAPACITY ==> Complete(FromCursor(d)[j])
  {
    var d := Run(INITIAL_DEV, ops);
    RunSlotsComplete(ops);
    forall j | 0 <= j < CAPACITY ensures Complete(FromCursor(d)[j]) {
      assert View(d).slot[SlotAt(d.bufferP, j)] == FromCursor(d)[j];
    }
  }

  /**
   In every reachable state, draining m entries returns their bytes if and only if each of them fits
   the request.
   */
  lemma DrainFaithfulIff(ops: seq<Op>, count: nat, m: nat)
    requires count > 0 && m <= CAPACITY
    requires var d := Run(INITIAL_DEV, ops);
             && d.readCounter + Cost(d, count, m) <= 10
             && forall j :: 0 <= j < m ==> FromCursor(d)[j] != []
    ensures var d := Run(INITIAL_DEV, ops);
            Concat(Drain(d, count, Cost(d, count, m)).data) == Concat(FromCursor(d)[..m]) <==>
            forall j :: 0 <= j < m ==> |FromCursor(d)[j]| <= count
  {
    RunOwned(ops);
    FromCursorComplete(ops);
    DrainWholeIff(Run(INITIAL_DEV, ops), count, m);
  }

  // ----- Requests larger than every entry

  predicate Exceeds(count: nat, d: Dev) {
    forall i :: 0 <= i < |d.bufferP.slot| ==> d.bufferP.slot[i].size < count
  }

  lemma {:induction false} WholePieces(ss: seq<seq<byte>>, count: nat)
    requires count > 0 && forall i :: 0 <= i < |ss| ==> |ss[i]| < count
    ensures AllPieces(ss, count) == ss
  {
    if ss != [] {
      var init, e := ss[..|ss| - 1], ss[|ss| - 1];
      WholePieces(init, count);
      assert e[..|e|] == e;
      assert ss == init + [e];
    }
  }

  lemma {:induction false} ExceedingCost(d: Dev, count: nat, m: nat)
    requires Shape(d.bufferP) && count > 0 && m <= CAPACITY
    requires forall j :: 0 <= j < CAPACITY ==> |FromCursor(d)[j]| < count
    ensures Cost(d, count, m) == m
  {
    if m > 0 {
      ExceedingCost(d, count, m - 1);
    }
  }

  lemma ExceedsEntries(d: Dev, count: nat)
    requires Owned(d) && Exceeds(count, d)
    ensures forall k :: 0 <= k < CAPACITY ==> |FromCursor(d)[k]| < count
  {
    forall k | 0 <= k < CAPACITY ensures |FromCursor(d)[k]| < count {
      assert Denotes(d.heap, d.bufferP.slot[SlotAt(d.bufferP, k)]);
    }
  }

  lemma ExceedingReads(d: Dev, count: nat)
    requires Owned(d) && Exceeds(count, d)
    ensures count > 0
    ensures forall m :: 0 <= m <= CAPACITY ==> Cost(d, count, m) == m && Returned(d, count, m) == FromCursor(d)[..m]
  {
    assert d.bufferP.slot[0].size < count;
    ExceedsEntries(d, count);
    forall m | 0 <= m <= CAPACITY ensures Cost(d, count, m) == m && Returned(d, count, m) == FromCursor(d)[..m] {
      ExceedingCost(d, count, m);
      WholePieces(FromCursor(d)[..m], count);
    }
  }

  /** Once the entries that the counter allows have been read, a read returns 0. */
  lemma NothingAfter(d: Dev, count: nat, n: nat, m: nat)
    requires Owned(d) && Occupied(d, n) && m <= n && d.readCounter + m <= 10
    requires m < n || n == CAPACITY ==> d.readCounter + m == 10
    ensures var d' := Advanced(d, m, m);
            Read(d', 0, count, true) == ReadResult(if m == n < CAPACITY then d' else d'.(readCounter := 0), 0, 0, [])
  {
    if m == CAPACITY {
      FullTurn(d, m);
    } else {
      AdvancedEntry(d, m, m);
    }
    ReadEnds(Advanced(d, m, m), 0, count);
  }

  /**
   Such a drain returns the entries from the cursor on, up to the first empty slot or the point where
   the counter, which earlier drains may have left above 0, reaches ten; the read after that returns 0.
   */
  lemma DrainReturns(d: Dev, count: nat, n: nat)
    requires Owned(d) && Exceeds(count, d) && d.readCounter <= 10 && Occupied(d, n)
    ensures var m := Min(n, 10 - d.readCounter); var p := Drain(d, count, m);
            && p == Drained(Advanced(d, m, m), 0, FromCursor(d)[..m])
            && Read(p.dev, 0, count, true).retval == 0
            && Read(p.dev, 0, count, true).dev == if m == n < CAPACITY then p.dev else p.dev.(readCounter := 0)
  {
    var m := Min(n, 10 - d.readCounter);
    ExceedingReads(d, count);
    DrainEntries(d, count, m);
    NothingAfter(d, count, n, m);
  }

  // ----- In terms of the history

  ghost predicate NoEmptyLine(j: Journal) {
    forall i :: 0 <= i < |j.lines| ==> j.lines[i] != []
  }

  lemma CursorFollowsContents(d: Dev, k: nat)
    requires Shape(d.bufferP) && AtOldest(d) && k < |Contents(View(d))|
    ensures FromCursor(d)[k] == Contents(View(d))[k]
  {
    assert Contents(View(d))[k] == View(d).slot[SlotAt(d.bufferP, k)];
  }

  /** Where the cursor has not been moved off the oldest entry, reads follow the history. */
  lemma CursorFollowsHistory(d: Dev, j: Journal)
    requires Tracks(d, j) && NoEmptyLine(j) && AtOldest(d)
    ensures Occupied(d, |LastTen(j.lines)|)
    ensures FromCursor(d)[..|LastTen(j.lines)|] == LastTen(j.lines)
  {
    var lines := LastTen(j.lines);
    assert Contents(View(d)) == lines;
    forall k | 0 <= k < |lines| ensures FromCursor(d)[k] == lines[k] != [] {
      CursorFollowsContents(d, k);
    }
  }

  /** From the oldest entry a drain returns the last ten entries in order, cut off at the counter. */
  lemma DrainReturnsHistory(d: Dev, j: Journal, count: nat)
    requires Tracks(d, j) && NoEmptyLine(j) && Exceeds(count, d) && d.readCounter <= 10
    requires AtOldest(d)
    ensures var m := Min(|LastTen(j.lines)|, 10 - d.readCounter);
            && Drain(d, count, m).data == LastTen(j.lines)[..m]
            && Read(Drain(d, count, m).dev, Drain(d, count, m).fPos, count, true).retval == 0
  {
    var n := |LastTen(j.lines)|;
    CursorFollowsHistory(d, j);
    DrainReturns(d, count, n);
    var m := Min(n, 10 - d.readCounter);
    assert FromCursor(d)[..n][..m] == FromCursor(d)[..m];
  }

  lemma OpenAfterWrites(chunks: seq<seq<byte>>, j: Journal)
    requires forall i :: 0 <= i < |chunks| ==> LineChunk(chunks[i])
    requires SplitsInto(Concat(chunks), j)
    ensures var d := Run(INITIAL_DEV, Writes(chunks));
            Open(d) == d && Tracks(d, j) && NoEmptyLine(j) && AtOldest(d) && d.readCounter == 0
  {
    WritesTracked(chunks);
    LineChunksSplitStream(chunks);
    SplitUnique(Concat(chunks), j, JournalOf(Writes(chunks)));
    WritesAtOldest(chunks);
  }

  /** Draining returns the lines, and the read after that returns 0. */
  predicate DrainsTo(d: Dev, count: nat, lines: seq<seq<byte>>)
    requires Shape(d.bufferP)
  {
    var p := Drain(d, count, |lines|);
    p.data == lines && Read(p.dev, p.fPos, count, true).retval == 0
  }

  lemma DrainsToHistory(d: Dev, j: Journal, count: nat)
    requires Tracks(d, j) && NoEmptyLine(j) && Exceeds(count, d) && d.readCounter == 0 && AtOldest(d)
    ensures DrainsTo(d, count, LastTen(j.lines))
  {
    DrainReturnsHistory(d, j, count);
    assert LastTen(j.lines)[..|LastTen(j.lines)|] == LastTen(j.lines);
  }

  /**
   End to end: whatever stream is written, cut anywhere at or between its newlines, opening the device
   and draining it returns the stream's last ten lines and then 0.
   */
  lemma WriteOpenDrain(chunks: seq<seq<byte>>, j: Journal, count: nat)
    requires forall i :: 0 <= i < |chunks| ==> LineChunk(chunks[i])
    requires SplitsInto(Concat(chunks), j) && Exceeds(count, Run(INITIAL_DEV, Writes(chunks)))
    ensures DrainsTo(Open(Run(INITIAL_DEV, Writes(chunks))), count, LastTen(j.lines))
  {
    OpenAfterWrites(chunks, j);
    DrainsToHistory(Run(INITIAL_DEV, Writes(chunks)), j, count);
  }

  // ----- A full ring can be drained any number of times

  /** Ten entries and the read that returns 0. */
  lemma FullDrainRestores(d: Dev, count: nat)
    requires Owned(d) && Exceeds(count, d) && d.readCounter == 0 && Occupied(d, CAPACITY)
    ensures Drain(d, count, CAPACITY + 1) == Drained(d, 0, FromCursor(d) + [[]])
  {
    var p := Drain(d, count, CAPACITY);
    ExceedingReads(d, count);
    DrainEndsAtTen(d, count);
    DrainFurther(d, count, CAPACITY, 1);
    assert FromCursor(d)[..CAPACITY] == FromCursor(d);
    assert ReadsFrom(p, count, 1) == ReadOnce(p, count);
  }

  /** Opening the device and draining it, a number of times, each time with a new file. */
  function Drains(d: Dev, count: nat, rounds: nat, times: nat): (r: Drained)
    requires Shape(d.bufferP)
    ensures Shape(r.dev.bufferP)
  {
    if times == 0 then Drained(d, 0, []) else
    var p := Drains(d, count, rounds, times - 1);
    var q := Drain(Open(p.dev), count, rounds);
    Drained(q.dev, q.fPos, p.data + q.data)
  }

  function Repeated(s: seq<seq<byte>>, times: nat): seq<seq<byte>> {
    if times == 0 then [] else Repeated(s, times - 1) + s
  }

  /** Each of any number of drains of a full ring returns the same ten entries and ends with 0 bytes. */
  lemma {:induction false} FullDrainsRepeat(d: Dev, count: nat, times: nat)
    requires Owned(d) && Exceeds(count, d) && d.readCounter == 0 && Occupied(d, CAPACITY) && d.bufferP.full
    ensures Drains(d, count, CAPACITY + 1, times) == Drained(d, 0, Repeated(FromCursor(d) + [[]], times))
  {
    if times > 0 {
      FullDrainsRepeat(d, count, times - 1);
      FullDrainRestores(d, count);
    }
  }

  // ----- A ring that is not full keeps its counter between drains

  /** Reads of an open file until one returns nothing: the device after it, and what the others returned. */
  function ReadToEnd(d: Dev, fPos: nat, count: nat): (r: (Dev, seq<seq<byte>>))
    requires Shape(d.bufferP) && d.readCounter <= 10
    ensures Shape(r.0.bufferP) && r.0.readCounter <= 10
    decreases 10 - d.readCounter
  {
    var r := Read(d, fPos, count, true);
    if r.retval <= 0 then (r.dev, []) else
    var rest := ReadToEnd(r.dev, r.fPos, count);
    (rest.0, [r.data] + rest.1)
  }

  lemma ReadWhole(d: Dev, count: nat)
    requires Owned(d) && CurrentEntry(d) != [] && |CurrentEntry(d)| < count && d.readCounter < 10
    ensures Read(d, 0, count, true) == ReadResult(MovedOn(d, 1), 0, |CurrentEntry(d)|, CurrentEntry(d))
  {
    assert Denotes(d.heap, d.bufferP.slot[d.bufferP.outOffs]);
    assert CurrentEntry(d)[..|CurrentEntry(d)|] == CurrentEntry(d);
  }

  /** What ends a drain whose m entries have been read. */
  function Ended(d: Dev, n: nat, m: nat): (d': Dev)
    requires Shape(d.bufferP) && m <= n < CAPACITY
    ensures Shape(d'.bufferP)
  {
    if m == n then Advanced(d, m, m) else Advanced(d, m, m).(readCounter := 0)
  }

  /** Reading to the end, once j entries have been read, returns the entries up to the m-th. */
  predicate EndsAfter(d: Dev, count: nat, n: nat, j: nat, m: nat)
    requires Shape(d.bufferP) && j <= m <= n < CAPACITY && d.readCounter + m <= 10
  {
    ReadToEnd(Advanced(d, j, j), 0, count) == (Ended(d, n, m), FromCursor(d)[j..m])
  }

  lemma EndsAtLast(d: Dev, count: nat, n: nat, m: nat)
    requires Owned(d) && Occupied(d, n) && m <= n < CAPACITY
    requires d.readCounter + m <= 10 && (m < n ==> d.readCounter + m == 10)
    ensures EndsAfter(d, count, n, m, m)
  {
    NothingAfter(d, count, n, m);
    assert FromCursor(d)[m..m] == [];
  }

  lemma EndsOneEarlier(d: Dev, count: nat, n: nat, j: nat, m: nat)
    requires Owned(d) && j < m <= n < CAPACITY && d.readCounter + m <= 10
    requires FromCursor(d)[j] != [] && |FromCursor(d)[j]| < count && EndsAfter(d, count, n, j + 1, m)
    ensures EndsAfter(d, count, n, j, m)
  {
    AdvancedEntry(d, j, j);
    ReadWhole(Advanced(d, j, j), count);
    AdvancedOnce(d, j, j, 1);
    assert [FromCursor(d)[j]] + FromCursor(d)[j + 1..m] == FromCursor(d)[j..m];
  }

  lemma {:induction false} ReadToEndFrom(d: Dev, count: nat, n: nat, j: nat, m: nat)
    requires Owned(d) && Occupied(d, n) && n < CAPACITY && (forall k :: 0 <= k < n ==> |FromCursor(d)[k]| < count)
    requires j <= m <= n && d.readCounter + m <= 10 && (m < n ==> d.readCounter + m == 10)
    ensures EndsAfter(d, count, n, j, m)
    decreases m - j
  {
    if j == m {
      EndsAtLast(d, count, n, m);
    } else {
      ReadToEndFrom(d, count, n, j + 1, m);
      EndsOneEarlier(d, count, n, j, m);
    }
  }

  /** One drain is complete exactly if the counter it starts with, plus the entries, is at most ten. */
  lemma DrainToEnd(d: Dev, count: nat, n: nat)
    requires Owned(d) && Exceeds(count, d) && d.readCounter <= 10 && Occupied(d, n) && n < CAPACITY
    ensures var m := Min(n, 10 - d.readCounter); ReadToEnd(d, 0, count) == (Ended(d, n, m), FromCursor(d)[..m])
  {
    ExceedsEntries(d, count);
    ReadToEndFrom(d, count, n, 0, Min(n, 10 - d.readCounter));
    assert Advanced(d, 0, 0) == d;
  }

  /** Opening the device and reading it to the end, a number of times. */
  function OpenedAndRead(d: Dev, count: nat, times: nat): (r: (Dev, seq<seq<seq<byte>>>))
    requires Shape(d.bufferP) && d.readCounter <= 10
    ensures Shape(r.0.bufferP) && r.0.readCounter <= 10 && |r.1| == times
  {
    if times == 0 then (d, []) else
    var before := OpenedAndRead(d, count, times - 1);
    var r := ReadToEnd(Open(before.0), 0, count);
    (r.0, before.1 + [r.1])
  }

  /** The read counter after a drain of n entries that found it at c. */
  function NextCounter(c: nat, n: nat): nat { if c + n <= 10 then c + n else 0 }

  /** The read counter after a number of these. */
  function CounterAfter(c: nat, n: nat, times: nat): (c': nat)
    requires c <= 10
    ensures c' <= 10
  {
    if times == 0 then c else NextCounter(CounterAfter(c, n, times - 1), n)
  }

  lemma SameEntries(d: Dev, c: nat)
    requires Owned(d)
    ensures Owned(d.(readCounter := c)) && FromCursor(d.(readCounter := c)) == FromCursor(d)
  {
    CursorMoves(d, d.(readCounter := c));
  }

  /** One of the drains, from the device as open leaves it but for the counter. */
  lemma DrainOnce(d: Dev, count: nat, n: nat, c: nat)
    requires Owned(d) && Exceeds(count, d) && Occupied(d, n) && n < CAPACITY && c <= 10
    requires !d.bufferP.full && d.bufferP.outOffs == 0
    ensures var r := ReadToEnd(d.(readCounter := c), 0, count);
            && r.1 == FromCursor(d)[..Min(n, 10 - c)]
            && Open(r.0) == d.(readCounter := NextCounter(c, n))
  {
    SameEntries(d, c);
    DrainToEnd(d.(readCounter := c), count, n);
  }

  /** Each drain has returned the entries that the counter left by the ones before it allowed. */
  ghost predicate ReturnedAllowed(r: (Dev, seq<seq<seq<byte>>>), d: Dev, n: nat, c: nat, times: nat)
    requires Shape(d.bufferP) && n < CAPACITY && c <= 10
  {
    && Open(r.0) == d.(readCounter := CounterAfter(c, n, times)) && |r.1| == times
    && forall t :: 0 <= t < times ==> r.1[t] == FromCursor(d)[..Min(n, 10 - CounterAfter(c, n, t))]
  }

  lemma OneMoreDrain(r: (Dev, seq<seq<seq<byte>>>), d: Dev, count: nat, n: nat, c: nat, times: nat)
    requires Owned(d) && Exceeds(count, d) && Occupied(d, n) && n < CAPACITY && c <= 10
    requires !d.bufferP.full && d.bufferP.outOffs == 0 && ReturnedAllowed(r, d, n, c, times)
    ensures var q := ReadToEnd(Open(r.0), 0, count); ReturnedAllowed((q.0, r.1 + [q.1]), d, n, c, times + 1)
  {
    DrainOnce(d, count, n, CounterAfter(c, n, times));
  }

  /** Every drain of a ring that is not full returns the entries that the counter allows. */
  lemma {:induction false} PartialDrains(d: Dev, count: nat, n: nat, times: nat)
    requires Owned(d) && Exceeds(count, d) && d.readCounter <= 10 && !d.bufferP.full && n < CAPACITY
    requires Occupied(Open(d), n)
    ensures ReturnedAllowed(OpenedAndRead(d, count, times), Open(d), n, d.readCounter, times)
  {
    if times > 0 {
      PartialDrains(d, count, n, times - 1);
      CursorMoves(d, Open(d));
      OneMoreDrain(OpenedAndRead(d, count, times - 1), Open(d), count, n, d.readCounter, times - 1);
    }
  }

  lemma NextResidueOf(t: nat, p: nat)
    requires p > 0 && t > 0
    ensures t % p == if (t - 1) % p + 1 == p then 0 else (t - 1) % p + 1
  {
    var q, j := (t - 1) / p, (t - 1) % p;
    assert t == p * q + j + 1;
    if j + 1 == p {
      assert t == p * (q + 1);
      QuotientUnique(p, q + 1, 0, t / p, t % p);
    } else {
      QuotientUnique(p, q, j + 1, t / p, t % p);
    }
  }

  lemma MultiplesWithin(n: nat, j: nat, limit: nat)
    requires n > 0
    ensures n * j <= limit <==> j <= limit / n
  {
    var q := limit / n;
    assert limit == n * q + limit % n;
    if j < q {
      NextMultiple(n, j, q);
    } else if q < j {
      NextMultiple(n, q, j);
    }
  }

  lemma NextMultipleOrZero(n: nat, j: nat)
    requires n > 0 && j <= 10 / n
    ensures NextCounter(n * j, n) == n * (if j + 1 == 10 / n + 1 then 0 else j + 1)
  {
    MultiplesWithin(n, j + 1, 10);
    assert n * (j + 1) == n * j + n;
  }

  /** From 0 the counter goes through the multiples of n up to ten, and starts again. */
  lemma {:induction false} CounterCycle(n: nat, t: nat) returns (j: nat)
    requires n > 0
    ensures j == t % (10 / n + 1) && j <= 10 / n && CounterAfter(0, n, t) == n * j
  {
    if t == 0 {
      j := 0;
    } else {
      j := CounterCycle(n, t - 1);
      NextResidueOf(t, 10 / n + 1);
      NextMultipleOrZero(n, j);
      j := if j + 1 == 10 / n + 1 then 0 else j + 1;
    }
  }

  lemma AllowsAt(n: nat, j: nat, c: nat)
    requires n > 0 && j <= 10 / n && c == n * j <= 10
    ensures Min(n, 10 - c) == if j < 10 / n then n else 10 % n
  {
    if j < 10 / n {
      MultiplesWithin(n, j + 1, 10);
      assert n * (j + 1) == c + n;
    } else {
      assert 10 == n * j + 10 % n;
    }
  }

  lemma CounterAllows(n: nat, t: nat) returns (j: nat)
    requires n > 0
    ensures j == t % (10 / n + 1)
    ensures Min(n, 10 - CounterAfter(0, n, t)) == if j < 10 / n then n else 10 % n
  {
    j := CounterCycle(n, t);
    AllowsAt(n, j, CounterAfter(0, n, t));
  }

  /**
   With n entries in a ring that is not full and the counter at 0, the drains go in rounds of
   10 / n + 1: all of a round but the last return the n entries, and the last one only 10 % n of them.
   */
  lemma PartialDrainsCycle(d: Dev, count: nat, n: nat, times: nat, t: nat)
    requires Owned(d) && Exceeds(count, d) && d.readCounter == 0 && !d.bufferP.full && 0 < n < CAPACITY
    requires Occupied(Open(d), n) && t < times
    ensures OpenedAndRead(d, count, times).1[t] ==
            FromCursor(Open(d))[..if t % (10 / n + 1) < 10 / n then n else 10 % n]
  {
    PartialDrains(d, count, n, times);
    var j := CounterAllows(n, t);
  }

  // ----- Positions inside an entry

  /**
   A request that stays inside the entry returns the entry's first bytes, wherever the position is,
   and does not move on to the next entry; so two such requests return the same bytes twice.
   */
  lemma ShortReadsRepeat(d: Dev, fPos: nat, count: nat)
    requires Owned(d) && d.readCounter + 2 <= 10 && 0 < count && fPos + 2 * count <= CurrentSize(d)
    ensures var r := Read(d, fPos, count, true); var r' := Read(r.dev, r.fPos, count, true);
            && r.data == r'.data == FromCursor(d)[0][..count] && r.retval == r'.retval == count
            && r'.fPos == fPos + 2 * count && r'.dev == d.(readCounter := d.readCounter + 2)
  {
    var e := d.bufferP.slot[d.bufferP.outOffs];
    assert Denotes(d.heap, e);
    assert FromCursor(d)[0] == Bytes(d.heap, e);
  }

  /** In every reachable state the counter is at most ten. */
  lemma {:induction false} CounterBounded(ops: seq<Op>)
    ensures Run(INITIAL_DEV, ops).readCounter <= 10
  {
    if ops != [] {
      CounterBounded(ops[..|ops| - 1]);
    }
  }
}
