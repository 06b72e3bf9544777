/**
 The ten-slot ring of aesd-circular-buffer.c.

 `Ring<T>` is the value of `struct aesd_circular_buffer` with slots of any type, so that the same
 transition serves the ring of pointer/size pairs and the ring of byte strings they denote.
 The class `Buffer` updates the structure in place and is proved against the `Ring` functions.
 */
module CircularBuffer {

  const CAPACITY: nat := 10
  const NULL: nat := 0

  datatype Option<+T> = None | Some(value: T)

  /** struct aesd_buffer_entry: a block of kernel memory and the number of bytes in it. */
  datatype Entry = Entry(buffptr: nat, size: nat)

  const BLANK := Entry(NULL, 0)

  datatype Ring<+T> = Ring(slot: seq<T>, inOffs: nat, outOffs: nat, full: bool)

  predicate Shape<T>(r: Ring<T>) {
    |r.slot| == CAPACITY && r.inOffs < CAPACITY && r.outOffs < CAPACITY
  }

  /** The next index, modulo the capacity. */
  function Advance(i: nat): (j: nat)
    ensures j < CAPACITY
    ensures i < CAPACITY ==> j == if i == CAPACITY - 1 then 0 else i + 1
  {
    (i + 1) % CAPACITY
  }

  /** The ring after memset: every slot blank. */
  function EmptyRing<T>(blank: T): Ring<T> {
    Ring(seq(CAPACITY, _ => blank), 0, 0, false)
  }

  /** aesd_circular_buffer_add_entry, new state. */
  function Add<T>(r: Ring<T>, x: T): Ring<T>
    requires |r.slot| == CAPACITY
  {
    if r.inOffs >= CAPACITY then r else
    var out := if r.full then Advance(r.outOffs) else r.outOffs;
    Ring(r.slot[r.inOffs := x], Advance(r.inOffs), out, r.full || Advance(r.inOffs) == out)
  }

  /** aesd_circular_buffer_add_entry, the slot it hands back. */
  function Evicted<T>(r: Ring<T>): Option<T>
    requires |r.slot| == CAPACITY
  {
    if r.inOffs < CAPACITY && r.full then Some(r.slot[r.inOffs]) else None
  }

  // ----- What the ring is for: it remembers the last ten additions

  /** The occupied slots, oldest first, as `inOffs` and `full` (and not `outOffs`) determine them. */
  function Contents<T>(r: Ring<T>): seq<T>
    requires Shape(r)
  {
    if r.full then r.slot[r.inOffs..] + r.slot[..r.inOffs] else r.slot[..r.inOffs]
  }

  function LastTen<T>(h: seq<T>): seq<T> {
    if |h| <= CAPACITY then h else h[|h| - CAPACITY..]
  }

  /** `r` is what a ten-element window over the history `h` should be. */
  ghost predicate Holds<T>(r: Ring<T>, h: seq<T>, blank: T) {
    && Shape(r)
    && r.inOffs == |h| % CAPACITY
    && (r.full <==> |h| >= CAPACITY)
    && Contents(r) == LastTen(h)
    && (!r.full ==> forall i :: r.inOffs <= i < CAPACITY ==> r.slot[i] == blank)
  }

  /** The cursor is where the "next write makes it full" test expects the oldest entry to be. */
  predicate Armed<T>(r: Ring<T>) { r.full || r.outOffs == 0 }

  /** The test `(in_offs + 1) % 10 == out_offs` answers "is this the tenth entry?" correctly. */
  predicate FullTestCorrect<T>(r: Ring<T>) {
    r.full || (Advance(r.inOffs) == r.outOffs <==> r.inOffs == CAPACITY - 1)
  }

  lemma LastTenSnoc<T>(h: seq<T>, x: T)
    ensures LastTen(h + [x]) == if |h| < CAPACITY then LastTen(h) + [x] else LastTen(h)[1..] + [x]
  {
  }

  /** Overwriting the oldest slot of a rotated sequence drops its head and appends. */
  lemma RotationStep<T>(s: seq<T>, i: nat, x: T)
    requires i < |s|
    ensures s[i := x][i + 1..] + s[i := x][..i + 1] == (s[i..] + s[..i])[1..] + [x]
  {
    assert s[i := x][..i + 1] == s[..i] + [x];
    assert (s[i..] + s[..i])[1..] == s[i + 1..] + s[..i];
  }

  lemma ContentsAfterAdd<T>(r: Ring<T>, x: T)
    requires Shape(r) && FullTestCorrect(r)
    ensures Shape(Add(r, x))
    ensures Contents(Add(r, x)) == if r.full then Contents(r)[1..] + [x] else Contents(r) + [x]
  {
    var i, s := r.inOffs, r.slot[r.inOffs := x];
    var window := if r.full then s[i + 1..] + s[..i + 1] else s[..i + 1];
    assert Contents(Add(r, x)) == window by {
      if i == CAPACITY - 1 {
        assert s[0..] + s[..0] == s;
        assert s[..i + 1] == s && s[i + 1..] == [];
      }
    }
    if r.full {
      RotationStep(r.slot, i, x);
    } else {
      assert s[..i + 1] == r.slot[..i] + [x];
    }
  }

  lemma AddKeepsHolds<T>(r: Ring<T>, h: seq<T>, x: T, blank: T)
    requires Holds(r, h, blank) && FullTestCorrect(r)
    ensures Holds(Add(r, x), h + [x], blank)
  {
    LastTenSnoc(h, x);
    ContentsAfterAdd(r, x);
  }

  lemma MisledAddBreaks<T>(r: Ring<T>, h: seq<T>, x: T, blank: T)
    requires Holds(r, h, blank) && !FullTestCorrect(r)
    ensures Add(r, x).full != (|h + [x]| >= CAPACITY)
  {
  }

  /**
   One addition keeps "the ring is the last ten" exactly when the cursor does not mislead the
   test for becoming full.
   */
  lemma AddKeepsHoldsIff<T>(r: Ring<T>, h: seq<T>, x: T, blank: T)
    requires Holds(r, h, blank)
    ensures Holds(Add(r, x), h + [x], blank) <==> FullTestCorrect(r)
    ensures Armed(r) ==> FullTestCorrect(r) && Armed(Add(r, x))
  {
    if FullTestCorrect(r) {
      AddKeepsHolds(r, h, x, blank);
    } else {
      MisledAddBreaks(r, h, x, blank);
    }
  }

  /** The entry handed back is the one that drops out of the window. */
  lemma EvictedIsOldest<T>(r: Ring<T>, h: seq<T>, blank: T)
    requires Holds(r, h, blank)
    ensures Evicted(r) == if |h| >= CAPACITY then Some(h[|h| - CAPACITY]) else None
  {
    if r.full {
      assert Contents(r)[0] == r.slot[r.inOffs];
    }
  }

  lemma WindowIndex(n: nat, k: nat)
    requires n >= CAPACITY && k < CAPACITY
    ensures var i := n % CAPACITY;
            (n - CAPACITY + k) % CAPACITY == if i + k < CAPACITY then i + k else i + k - CAPACITY
  {
    var q, i := n / CAPACITY, n % CAPACITY;
    assert n - CAPACITY + k == CAPACITY * (q - 1) + (i + k);
  }

  /** Each slot holds the latest addition congruent to its index. */
  lemma SlotHoldsLatest<T>(r: Ring<T>, h: seq<T>, blank: T, j: nat)
    requires Holds(r, h, blank) && j < |h| <= j + CAPACITY
    ensures r.slot[j % CAPACITY] == h[j]
  {
    var k := j - (|h| - |LastTen(h)|);
    assert Contents(r)[k] == h[j];
    if r.full {
      WindowIndex(|h|, k);
    }
  }

  // ----- Runs of additions

  function AddAll<T>(r: Ring<T>, xs: seq<T>): (r': Ring<T>)
    requires |r.slot| == CAPACITY
    ensures |r'.slot| == CAPACITY
  {
    if xs == [] then r else Add(AddAll(r, xs[..|xs| - 1]), xs[|xs| - 1])
  }

  function EvictedAll<T>(r: Ring<T>, xs: seq<T>): seq<T>
    requires |r.slot| == CAPACITY
  {
    if xs == [] then [] else
    var before := xs[..|xs| - 1];
    EvictedAll(r, before) + match Evicted(AddAll(r, before)) { case None => [] case Some(x) => [x] }
  }

  lemma AdvanceModulo(i: nat, n: nat)
    requires i == n % CAPACITY
    ensures Advance(i) == (n + 1) % CAPACITY
  {
  }

  /** The index of the oldest of `n` additions. */
  function OldestIndex(n: nat): nat {
    if n <= CAPACITY then 0 else (n - CAPACITY) % CAPACITY
  }

  lemma OldestIndexStep(n: nat)
    ensures OldestIndex(n + 1) == if n < CAPACITY then 0 else Advance(OldestIndex(n))
  {
    if n >= CAPACITY {
      AdvanceModulo(OldestIndex(n), n - CAPACITY);
    }
  }

  lemma FifoStep<T>(r: Ring<T>, h: seq<T>, x: T, blank: T)
    requires Holds(r, h, blank) && r.outOffs == OldestIndex(|h|)
    ensures Holds(Add(r, x), h + [x], blank) && Add(r, x).outOffs == OldestIndex(|h| + 1)
  {
    OldestIndexStep(|h|);
    assert Armed(r);
    AddKeepsHoldsIff(r, h, x, blank);
  }

  lemma EmptyHolds<T>(blank: T)
    ensures Holds(EmptyRing(blank), [], blank) && Armed(EmptyRing(blank))
  {
    assert Contents(EmptyRing(blank)) == [];
  }

  /** From init, any number of additions refines a bounded FIFO of ten. */
  lemma {:induction false} AddRunRefinesFifo<T>(xs: seq<T>, blank: T)
    ensures Holds(AddAll(EmptyRing(blank), xs), xs, blank)
    ensures AddAll(EmptyRing(blank), xs).outOffs == OldestIndex(|xs|)
  {
    if xs == [] {
      EmptyHolds(blank);
    } else {
      var before, x := xs[..|xs| - 1], xs[|xs| - 1];
      var r := AddAll(EmptyRing(blank), before);
      assert AddAll(EmptyRing(blank), xs) == Add(r, x);
      AddRunRefinesFifo(before, blank);
      FifoStep(r, before, x, blank);
      assert before + [x] == xs;
    }
  }

  lemma NextEvicted<T>(xs: seq<T>, blank: T)
    ensures Evicted(AddAll(EmptyRing(blank), xs))
         == if |xs| >= CAPACITY then Some(xs[|xs| - CAPACITY]) else None
  {
    AddRunRefinesFifo(xs, blank);
    EvictedIsOldest(AddAll(EmptyRing(blank), xs), xs, blank);
  }

  lemma OneMoreDropped<T>(before: seq<T>, x: T)
    ensures var xs := before + [x];
            xs[..|xs| - |LastTen(xs)|] ==
            before[..|before| - |LastTen(before)|]
            + if |before| >= CAPACITY then [before[|before| - CAPACITY]] else []
  {
  }

  /** Along such a run what was handed back is, in order, everything but the last ten. */
  lemma {:induction false} AddRunEvictsInOrder<T>(xs: seq<T>, blank: T)
    ensures EvictedAll(EmptyRing(blank), xs) == xs[..|xs| - |LastTen(xs)|]
  {
    if xs != [] {
      var before, x := xs[..|xs| - 1], xs[|xs| - 1];
      assert xs == before + [x];
      AddRunEvictsInOrder(before, blank);
      NextEvicted(before, blank);
      OneMoreDropped(before, x);
    }
  }

  // ----- The cursor, from anywhere

  /** After how many additions the test finds the ring full; 0 if it is marked full already. */
  function UntilFull<T>(r: Ring<T>): nat
    requires Shape(r)
  {
    if r.full then 0
    else if r.inOffs < r.outOffs then r.outOffs - r.inOffs
    else r.outOffs + CAPACITY - r.inOffs
  }

  lemma AddIndices<T>(r: Ring<T>, x: T)
    requires Shape(r)
    ensures Shape(Add(r, x)) && Add(r, x).inOffs == Advance(r.inOffs)
    ensures Add(r, x).full <==> UntilFull(r) <= 1
    ensures Add(r, x).outOffs == if r.full then Advance(r.outOffs) else r.outOffs
    ensures !Add(r, x).full ==> UntilFull(Add(r, x)) == UntilFull(r) - 1
  {
  }

  /** Where k additions leave the indices and the flag. */
  predicate MovedBy<T>(r: Ring<T>, r': Ring<T>, k: nat)
    requires Shape(r)
  {
    && Shape(r') && r'.inOffs == (r.inOffs + k) % CAPACITY
    && (r'.full <==> k >= UntilFull(r))
    && r'.outOffs == (r.outOffs + if k <= UntilFull(r) then 0 else k - UntilFull(r)) % CAPACITY
  }

  lemma InGap<T>(r: Ring<T>, r': Ring<T>, k: nat)
    requires Shape(r) && MovedBy(r, r', k) && k < UntilFull(r)
    ensures UntilFull(r') == UntilFull(r) - k && r'.outOffs == r.outOffs
  {
  }

  lemma MovedByOneMore<T>(r: Ring<T>, r': Ring<T>, k: nat, x: T)
    requires Shape(r) && MovedBy(r, r', k)
    ensures MovedBy(r, Add(r', x), k + 1)
  {
    AddIndices(r', x);
    AdvanceModulo(r'.inOffs, r.inOffs + k);
    if k < UntilFull(r) {
      InGap(r, r', k);
    } else {
      AdvanceModulo(r'.outOffs, r.outOffs + k - UntilFull(r));
    }
  }

  /** With a write index that is not one, nothing is added and nothing handed back. */
  lemma {:induction false} BadIndexIgnored<T>(r: Ring<T>, xs: seq<T>)
    requires |r.slot| == CAPACITY && r.inOffs >= CAPACITY
    ensures AddAll(r, xs) == r && EvictedAll(r, xs) == []
  {
    if xs != [] {
      BadIndexIgnored(r, xs[..|xs| - 1]);
    }
  }

  /**
   For every ring, wherever its cursor is: the cursor stays where it is until the ring is found full,
   which depends on the cursor, and moves on by one with each addition after that.
   */
  lemma {:induction false} AddRunIndices<T>(r: Ring<T>, xs: seq<T>)
    requires Shape(r)
    ensures MovedBy(r, AddAll(r, xs), |xs|)
  {
    if xs != [] {
      var before := xs[..|xs| - 1];
      AddRunIndices(r, before);
      MovedByOneMore(r, AddAll(r, before), |before|, xs[|xs| - 1]);
    }
  }

  /** All slots, from the cursor on. */
  function FromOut<T>(r: Ring<T>): (s: seq<T>)
    requires Shape(r)
    ensures |s| == CAPACITY
  {
    r.slot[r.outOffs..] + r.slot[..r.outOffs]
  }

  /** How many of the occupied slots of a full ring are at or after the cursor. */
  function Unread<T>(r: Ring<T>): (n: nat)
    requires Shape(r)
    ensures 1 <= n <= CAPACITY
  {
    if r.outOffs < r.inOffs then r.inOffs - r.outOffs else r.inOffs + CAPACITY - r.outOffs
  }

  lemma AddSkips<T>(r: Ring<T>, x: T)
    requires Shape(r) && r.full
    ensures Shape(Add(r, x)) && Add(r, x).full && Unread(Add(r, x)) == Unread(r)
    ensures FromOut(Add(r, x))[..Unread(r)] == FromOut(r)[1..Unread(r)] + [x]
  {
    var r', n := Add(r, x), Unread(r);
    forall j | 0 <= j < n ensures FromOut(r')[j] == (FromOut(r)[1..n] + [x])[j] {
      FromOutAt(r', j);
      if j < n - 1 {
        FromOutAt(r, j + 1);
      }
    }
  }

  lemma FromOutAt<T>(r: Ring<T>, j: nat)
    requires Shape(r) && j < CAPACITY
    ensures FromOut(r)[j] == r.slot[if r.outOffs + j < CAPACITY then r.outOffs + j else r.outOffs + j - CAPACITY]
  {
  }

  /** Where additions to a full ring leave a reader: `xs` past what it had still to read. */
  predicate SkippedPast<T(==)>(r: Ring<T>, r': Ring<T>, xs: seq<T>)
    requires Shape(r)
  {
    && Shape(r') && r'.full && Unread(r') == Unread(r)
    && FromOut(r')[..Unread(r)] == (FromOut(r)[..Unread(r)] + xs)[|xs|..]
  }

  lemma ShiftByOne<T>(s: seq<T>, xs: seq<T>, x: T)
    requires s != []
    ensures (s + xs)[|xs|..][1..] + [x] == (s + (xs + [x]))[|xs| + 1..]
  {
  }

  lemma SkippedOneMore<T>(r: Ring<T>, r': Ring<T>, xs: seq<T>, x: T)
    requires Shape(r) && SkippedPast(r, r', xs)
    ensures SkippedPast(r, Add(r', x), xs + [x])
  {
    var n := Unread(r);
    AddSkips(r', x);
    assert FromOut(r')[..n][1..] == FromOut(r')[1..n];
    ShiftByOne(FromOut(r)[..n], xs, x);
  }

  /**
   With a full ring and the cursor anywhere, k additions move the cursor past exactly k of the slots
   that follow it, counting the added ones.
   */
  lemma {:induction false} AdditionsSkip<T>(r: Ring<T>, xs: seq<T>)
    requires Shape(r) && r.full
    ensures SkippedPast(r, AddAll(r, xs), xs)
  {
    if xs != [] {
      var before, x := xs[..|xs| - 1], xs[|xs| - 1];
      assert xs == before + [x];
      AdditionsSkip(r, before);
      SkippedOneMore(r, AddAll(r, before), before, x);
    }
  }

  // ----- The structure updated in place

  class Buffer {
    const entry: array<Entry>
    var inOffs: nat
    var outOffs: nat
    var full: bool

    ghost predicate Valid()
      reads this
    {
      entry.Length == CAPACITY
    }

    function Model(): (r: Ring<Entry>)
      requires Valid()
      reads this, entry
      ensures |r.slot| == CAPACITY
    {
      Ring(entry[..], inOffs, outOffs, full)
    }

    /** aesd_circular_buffer_init */
    constructor ()
      ensures Valid() && fresh(entry) && Model() == EmptyRing(BLANK)
    {
      entry := new Entry[CAPACITY](_ => BLANK);
      inOffs, outOffs, full := 0, 0, false;
      new;
      assert entry[..] == seq(CAPACITY, _ => BLANK);
    }

    /** aesd_circular_buffer_add_entry */
    method AddEntry(addEntry: Entry) returns (resultP: nat)
      requires Valid()
      modifies this, entry
      ensures Valid() && Model() == Add(old(Model()), addEntry)
      ensures resultP == match old(Evicted(Model())) { case None => NULL case Some(e) => e.buffptr }
    {
      resultP := NULL;
      if inOffs >= CAPACITY {
        return;
      }
      if full {
        resultP := entry[inOffs].buffptr;
        outOffs := Advance(outOffs);
      }
      if Advance(inOffs) == outOffs {
        full := true;
      }
      entry[inOffs] := addEntry;
      inOffs := Advance(inOffs);
    }
  }
}
