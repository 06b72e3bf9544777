/**
 Kernel memory as the driver sees it: kmalloc, kfree and the bytes behind each pointer.

 Block names are never reused, so "freed twice" and "reachable after free" can be told apart from
 an address that was handed out again. A name below `FIRST_BLOCK` is not a block: NULL, and the
 pointer that kmalloc returns for zero bytes, both of which kfree ignores.
 */
module Kernel {
  import opened CircularBuffer

  type byte = x: int | 0 <= x < 256

  const ZERO_SIZE_PTR: nat := 1
  const FIRST_BLOCK: nat := 2

  datatype Heap = Heap(blocks: map<nat, seq<byte>>, freed: seq<nat>, next: nat)

  const FRESH_HEAP := Heap(map[], [], FIRST_BLOCK)

  predicate IsBlock(p: nat) { p >= FIRST_BLOCK }

  /** The pointer kmalloc(|data|) returns. */
  function Kmalloc(h: Heap, data: seq<byte>): nat {
    if data == [] then ZERO_SIZE_PTR else h.next
  }

  /** The heap after kmalloc(|data|) and filling the new block with `data`. */
  function Filled(h: Heap, data: seq<byte>): Heap {
    if data == [] then h else Heap(h.blocks[h.next := data], h.freed, h.next + 1)
  }

  function Kfree(h: Heap, p: nat): Heap {
    if IsBlock(p) then Heap(h.blocks - {p}, h.freed + [p], h.next) else h
  }

  /** The bytes an entry denotes. */
  function Bytes(h: Heap, e: Entry): seq<byte> {
    if e.buffptr in h.blocks then h.blocks[e.buffptr] else []
  }

  /** Every block ever allocated is either live or has been freed exactly once. */
  ghost predicate Consistent(h: Heap) {
    && h.next >= FIRST_BLOCK
    && (forall p :: p in h.blocks || p in h.freed ==> FIRST_BLOCK <= p < h.next)
    && (forall p :: FIRST_BLOCK <= p < h.next ==> (p in h.blocks <==> p !in h.freed))
    && (forall i, j :: 0 <= i < j < |h.freed| ==> h.freed[i] != h.freed[j])
    && (forall p :: p in h.blocks ==> h.blocks[p] != [])
  }

  /** The entry is blank, an empty allocation, or a live block of the recorded size. */
  predicate Denotes(h: Heap, e: Entry) {
    && (IsBlock(e.buffptr) <==> e.size > 0)
    && (IsBlock(e.buffptr) ==> e.buffptr in h.blocks && |h.blocks[e.buffptr]| == e.size)
  }

  lemma FilledKeeps(h: Heap, data: seq<byte>)
    requires Consistent(h)
    ensures Consistent(Filled(h, data))
    ensures Kmalloc(h, data) !in h.blocks && Kmalloc(h, data) !in h.freed && Kmalloc(h, data) != NULL
    ensures Denotes(Filled(h, data), Entry(Kmalloc(h, data), |data|))
    ensures Bytes(Filled(h, data), Entry(Kmalloc(h, data), |data|)) == data
    ensures forall e :: Denotes(h, e) ==> Denotes(Filled(h, data), e) && Bytes(Filled(h, data), e) == Bytes(h, e)
  {
  }

  /** Freeing a live block keeps the account, and touches nothing but that block. */
  lemma KfreeKeeps(h: Heap, p: nat)
    requires Consistent(h) && (IsBlock(p) ==> p in h.blocks)
    ensures Consistent(Kfree(h, p))
    ensures forall e :: Denotes(h, e) && (e.buffptr != p || !IsBlock(p)) ==>
              Denotes(Kfree(h, p), e) && Bytes(Kfree(h, p), e) == Bytes(h, e)
  {
  }
}
