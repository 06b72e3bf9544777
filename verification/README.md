# A verified model of the AESD char device, its socket server and its queues

The system has three parts, and the model follows them.

**The char device** (`aesd-char-driver/`). Writes accumulate in a pending entry in kernel memory. When the
first newline of that entry is its last byte, the entry moves into a ring of ten slots, and the buffer it
replaces is freed. One index, `out_offs`, is both the ring's oldest slot and the cursor that reads advance
and open resets. The ring's test for becoming full looks at that index, so reading can make it go wrong.

**The socket server** (`server/aesdsocket.c`). Any number of connection threads open the device, append
messages under `file_mutex` after opening it again, and read back in a second critical section. A main
thread starts them, keeps them in a list, and joins those that report completion.

**The queue macros** (`server/queue.h`). Intrusive tail queues, singly linked tail queues, circular queues
and singly linked lists; the server uses the last.

How the files fit together:

- `CircularBuffer.dfy`: the ring as a value, generic in what a slot holds, and as a structure updated in
  place. `OffsetSearch.dfy`: the search for a byte offset, with its 16-bit arithmetic.
  `SearchContract.dfy`: the search without truncation, the documented contract, and when each is met.
- `Kernel.dfy`, `DeviceSpec.dfy`, `Device.dfy`: kernel memory, the device's transitions as functions on
  values, and the driver as a class whose methods are proved to perform these transitions in place.
- `Ownership.dfy`, `LineHistory.dfy`, `Commits.dfy`, `Drain.dfy`, `Reading.dfy`, `Seek.dfy`: what holds of every
  run, of single reads, and of readers among writers.
- `Server.dfy`: the threads as a step function; a run is any sequence of events, so a lemma about all
  event sequences is a lemma about all interleavings. `ServerTrace.dfy` follows messages from the buffers
  received to the ring, `ServerFlow.dfy` the course of a connection.
- `Sequences.dfy`, `Tailq.dfy`, `Stailq.dfy`, `Circleq.dfy`, `Slist.dfy`, `Reaper.dfy`: the macros on
  heap objects, each proved to act as an operation on a sequence, and the main thread on top.

## Main results

- `Server.RingIsLastTenCommits`, `ServerTrace.RingIsLastTenSent`: in every interleaving the ring is the last
  ten committed entries, and if clients send single lines and no flush fails, the last ten buffers received,
  byte for byte, in mutex order; `ServerTrace.MessagesAreReceived`: whatever fails, every message appended is
  the text of a different buffer received, and every one received is accounted for. Every
  thread also opens and reads the device; `Server.CursorRestsUntilFull` shows that none of this moves the
  shared cursor before the ring is full, and `Server.SectionEnds` that every critical section ends.
  `Server.StuckForAll`: one client's message with an inner newline ends all storing, for every client.
- `LineHistory.CommitTrackedIff`: exactly when a commit keeps the ring so, from any state;
  `LineHistory.UndisciplinedRunLeaks` is a run in which it fails, and the next write loses a buffer.
- `CircularBuffer.AddRunIndices`, `Reading.CommitsSkip`: where any number of additions leave the cursor, from
  anywhere, and that k commits make a reader of a full ring skip exactly k entries.
- `Ownership.RunOwned`, `LineHistory.DisciplinedRun`, `Ownership.ApplyLeaksIff`: no run frees twice or
  leaves a freed buffer reachable, and exactly when an operation leaks.
- `Commits.BytesConserved`, `Commits.ChunkingIrrelevant`, `Commits.StuckForever`: conservation of bytes,
  independence of how a stream is cut into writes, and the pending entry that blocks the device for good.
- `OffsetSearch.FindEntryOffsetForFpos`, `OffsetSearch.SearchStopsIff`: for every ring and offset, what the
  offset search returns and exactly when it ends; `SearchContract.UntruncatedIff` and
  `SearchContract.DocumentedIff`: from the stored sizes and the offset alone, exactly when 16-bit truncation
  does not show, and exactly when the search does what its comment says.
- `Draining.EntryReadWholeIff`, `Draining.DrainFaithfulIff`: exactly which request sizes read entries back as
  they were written, and what they cost of the read counter; `Draining.WriteOpenDrain`: write, open, drain
  gives the last ten lines.
- `Tailq`, `Stailq`, `Circleq`: every operation refines its sequence operation, including the backward walk
  that reads an element's link as if it were a head; `Reaper.MainLoop` joins every thread exactly once.

## Where the code differs from its comments

The model follows the code.

- The comment on the offset search promises the entry and byte of any offset. The code advances to the next
  slot before it adds a size back, so where 16-bit truncation does not show, an offset inside an entry gives
  the following slot, with a byte that may wrap around below zero (`InteriorOffsetMissesEntry`), and the end
  of data that leaves the tenth slot empty gives an empty slot instead of NULL. Where truncation shows, an
  offset inside an entry may be found (`InteriorOffsetFound`); `DocumentedIff` covers both. On an empty ring
  a positive offset loops forever, and so may one on a ring whose total is a multiple of 65536
  (`FullWrapLoops`).
- The comment on adding an entry says it returns the oldest entry; it returns NULL unless the ring is full.
- A write of zero bytes with nothing pending commits an empty entry, because both sides of the test convert
  to the same unsigned number. The model allows such writes.
- `SEEK_END` counts from `out_offs`, a slot number (`SeekEndIsSizeIff`).
- A read copies from the start of the entry whatever the file position is (`ShortReadsRepeat`), so reads
  return an entry as it was written exactly if the request is at least its size (`EntryReadWholeIff`).
- The read counter allows ten reads in a row, whatever they return, so small requests end a drain early
  (`DrainEndsAtCounter`); and it is not reset when a drain ends at an empty slot, so that every few drains
  of a ring that is not full one is cut short (`PartialDrainsCycle`).

## Model

| member | source | states |
|---|---|---|
| CircularBuffer.Buffer.constructor | aesd-char-driver/aesd-circular-buffer.c:123-126 | init yields the ring of ten blank slots |
| CircularBuffer.Buffer.AddEntry | aesd-char-driver/aesd-circular-buffer.c:84-118 | adding in place is the ring transition, and the returned pointer is the evicted slot's buffer, or NULL when nothing is evicted |
| CircularBuffer.AddKeepsHoldsIff | aesd-char-driver/aesd-circular-buffer.c:98-116 | an addition keeps "the ring is the last ten additions, full from the tenth on" if and only if the cursor does not mislead the test for becoming full |
| CircularBuffer.AddRunRefinesFifo | aesd-char-driver/aesd-circular-buffer.c:84-126 | after any N additions from init: in_offs is N mod 10, out_offs is max(0, N-10) mod 10, full iff N >= 10, and the contents are the last ten in order |
| CircularBuffer.AddRunEvictsInOrder | aesd-char-driver/aesd-circular-buffer.c:98-103 | over any such run the slots handed back are, in order, all additions but the last ten |
| CircularBuffer.SlotHoldsLatest | aesd-char-driver/aesd-circular-buffer.c:113-116 | each slot holds the latest addition congruent to its index |
| CircularBuffer.AddRunIndices | aesd-char-driver/aesd-circular-buffer.c:98-116 | for every ring, wherever its cursor is, and any k additions: in_offs moves on by k modulo 10, the ring becomes full exactly when in_offs meets out_offs, and out_offs stays until then and moves on by one with each later addition |
| CircularBuffer.AdditionsSkip | aesd-char-driver/aesd-circular-buffer.c:98-116 | on a full ring k additions leave the distance from out_offs to in_offs unchanged, and the slots from out_offs on are those that followed before, k of them skipped, the added ones included |
| CircularBuffer.BadIndexIgnored | aesd-char-driver/aesd-circular-buffer.c:90-95 | with a write index out of range any number of additions change nothing and hand back nothing |
| OffsetSearch.FindEntryOffsetForFpos | aesd-char-driver/aesd-circular-buffer.c:31-75 | for every ring and offset for which the loop ends: in at most ten rounds it finds the first slot start whose 16-bit value, compared as a size_t, is not below the offset, and the byte computed there; NULL exactly when the ten starts are all below it and so is the total less one |
| OffsetSearch.SearchStopsIff | aesd-char-driver/aesd-circular-buffer.c:45-71 | for every ring and offset, the loop ends, and then within ten rounds, if and only if the offset is 0, the stored total is not a multiple of 65536, or a boundary inside the first turn compares as not below the offset |
| OffsetSearch.ReturnsUnique | aesd-char-driver/aesd-circular-buffer.c:45-74 | at most one result meets the description of what the search returns |
| OffsetSearch.FullWrapLoops | aesd-char-driver/aesd-circular-buffer.c:45-59 | with one stored entry of 65536 bytes and offset 1 the loop never ends |
| SearchContract.UntruncatedIff | aesd-char-driver/aesd-circular-buffer.c:40-71 | for every ring and offset, the result is that of the search over unbounded integers if and only if, up to the boundary found, the truncated boundaries compare with the offset as the true ones do, and the size and overshoot there are such that the corrected byte fits in 16 bits or needs no correction |
| SearchContract.InvisibleWithin | aesd-char-driver/aesd-circular-buffer.c:40-60 | per offset: if the boundary found and the size of its slot fit in 16 bits, truncation does not show, whatever is stored behind it |
| SearchContract.SmallRingsUnaffected | aesd-char-driver/aesd-circular-buffer.c:40-60 | with 1 to 32767 bytes stored truncation shows for no offset |
| SearchContract.TruncationMatters | aesd-char-driver/aesd-circular-buffer.c:40-45 | with a single entry of 32768 bytes and offset 40000, past the data, the search returns a slot instead of NULL |
| SearchContract.DocumentedIff | aesd-char-driver/aesd-circular-buffer.c:21-75 | for every ring and offset, the documented result is returned if and only if: the offset is past the data and past every slot start and the last position, each as its residue modulo 65536 sign-extended to 64 bits; or some slot holds it at a byte up to 32767 (or, near 2^64, in a slot whose size is a multiple of 65536) and that slot's start is the first whose residue so extended is not below it |
| SearchContract.HeldAtIff | aesd-char-driver/aesd-circular-buffer.c:45-60 | except for the last 32768 offsets below 2^64, that slot is found exactly at its start, if this is at most 32767, or wherever its start has a residue above 32767 |
| SearchContract.InteriorOffsetFound | aesd-char-driver/aesd-circular-buffer.c:49-60 | with entries of 40000 and 100 bytes, offset 40005 gives slot 1 and byte 5, as documented, though it lies inside an entry |
| SearchContract.DocumentedWhereInvisible | aesd-char-driver/aesd-circular-buffer.c:21-75 | where truncation does not show, that is if and only if the offset starts a non-empty entry that does not follow an empty slot, or is past the data and past the tenth slot's start |
| SearchContract.HitsIff | aesd-char-driver/aesd-circular-buffer.c:49-60 | the byte computed for a slot that holds the offset is right if and only if it is at most 32767, or is among the last 32768 numbers below 2^64 and the slot's size is a multiple of 65536 |
| SearchContract.InteriorOffsetMissesEntry | aesd-char-driver/aesd-circular-buffer.c:49-60 | a two-byte entry and offset 1 give the next slot and byte 2^64 - 1 |
| SearchContract.EntryStartFound | aesd-char-driver/aesd-circular-buffer.c:45-74 | for every ring and cursor position, the start of a non-empty entry is found as that entry, byte 0, if and only if no empty slot precedes it and truncation leaves the comparisons up to it unchanged, as it does up to 32767 stored bytes |
| Kernel.FilledKeeps | aesd-char-driver/main.c:280-291 | a new block is distinct from all live and all freed ones and disturbs none of them |
| Kernel.KfreeKeeps | aesd-char-driver/main.c:161-165 | freeing a live block keeps every allocated block either live or freed once, and disturbs no other |
| CharDevice.CheckEolChar | aesd-char-driver/main.c:139-150 | the position of the first newline, or -1 |
| CharDevice.Device.constructor | aesd-char-driver/main.c:354-357 | the module starts with an empty ring, nothing pending and no block |
| CharDevice.Device.Open | aesd-char-driver/main.c:183-196 | open resets the cursor unless the ring is full, and keeps ownership |
| CharDevice.Device.Read | aesd-char-driver/main.c:207-263 | data, return value, position, counter and cursor after a read, for every position and request, including the failing copy |
| CharDevice.Device.WriteEntryIntoBuffer | aesd-char-driver/main.c:153-180 | the pending entry moves to the ring, and the evicted block is freed, exactly when its first newline is its last byte |
| CharDevice.Device.Write | aesd-char-driver/main.c:265-315 | bytes appended to the pending entry in a new block, the old block freed, then the commit; and what a failing copy leaves behind |
| CharDevice.Device.AdjustFileOffset | aesd-char-driver/main.c:31-78 | the call returns 0 if and only if the command is below 10 and the offset is inside the bytes that slot owns; then the position is the length of the slots before it plus the offset, and the stored bytes hold at that position the byte the pair names; otherwise -EINVAL and the position stays |
| CharDevice.Device.Llseek | aesd-char-driver/main.c:80-125 | the new position if it lies between 0 and the total, else -EINVAL and no change |
| CharDevice.Device.Clean | aesd-char-driver/main.c:127-136 | unloading frees the block of each slot exactly once, in order; if nothing had leaked only a pending entry's block survives |
| Ownership.AccumulateSteps | aesd-char-driver/main.c:276-306 | appending keeps ownership, adds exactly the chunk to the pending bytes, changes no slot and leaks nothing |
| Ownership.CommitOwned | aesd-char-driver/main.c:158-168 | a commit keeps slots and pending entry on distinct live blocks and empties the pending entry |
| Ownership.CommitView | aesd-char-driver/main.c:158-168 | on the byte strings the pointers stand for, a commit is one ring addition of the pending bytes |
| Ownership.CommitLeaksIff | aesd-char-driver/aesd-circular-buffer.c:98-114 | a commit leaks no block if and only if the ring is marked full or the overwritten slot has none |
| Ownership.ApplyLeaksIff | aesd-char-driver/main.c:183-315 | any one operation loses no block if and only if: a commit finds the ring marked full or no block in the slot it overwrites, and a failing copy finds no pending entry; opens and reads never lose one |
| Ownership.RunOwned | aesd-char-driver/main.c:183-315 | over every run of opens, reads, writes and failing copies: slots and pending entry own distinct live blocks, nothing freed is reachable, nothing is freed twice |
| Ownership.CleanFreesEachOnce | aesd-char-driver/main.c:127-136 | the cleanup loop frees the block of each slot once, in slot order, and no other block |
| Ownership.CleanLeavesOnlyPending | aesd-char-driver/main.c:127-136 | without a leak, the only block left after cleanup is the pending entry's |
| LineHistory.CommitTrackedIff | aesd-char-driver/main.c:153-180 | from any state that remembers the last ten entries, a commit keeps doing so if and only if the cursor lets the driver recognise the tenth entry |
| LineHistory.DisciplinedRun | aesd-char-driver/main.c:183-315 | over every run in which a read is followed by an open before the next write, the ring is the last ten committed entries and the pending bytes are right; without failed copies the live blocks are exactly those pointed to |
| LineHistory.UndisciplinedRunLeaks | aesd-char-driver/main.c:153-258 | one line written and read, then nine more lines without an open: ten commits, the ring is not marked full, and the next line loses the block of the first |
| Commits.BytesConserved | aesd-char-driver/main.c:153-180 | over every run of writes, wherever newlines fall: dropped entries, ring from oldest to newest, pending entry concatenate to the bytes written |
| Commits.DroppedIsOldest | aesd-char-driver/main.c:160-165 | the entries dropped over a run of writes are, in order, all committed ones but the last ten |
| Commits.RingIsLastTenLines | aesd-char-driver/main.c:139-180 | if newlines come only at the end of chunks, the ring is the last ten lines of the stream and what follows its last newline is pending |
| Commits.SplitUnique | aesd-char-driver/main.c:139-150 | a stream has only one division into lines and a rest |
| Commits.ChunkingIrrelevant | aesd-char-driver/main.c:265-315 | two such ways of cutting one stream into writes leave the same contents, pending bytes, both indices and flag |
| Commits.WritesAtOldest | aesd-char-driver/main.c:265-315 | over every run of writes the cursor stays on the oldest entry and the read counter at 0 |
| Commits.CompleteIff | aesd-char-driver/main.c:156-180 | an entry commits if and only if it is empty or ends in its only newline |
| Commits.StoredEntriesAreLines | aesd-char-driver/main.c:156-169 | in every reachable state every non-empty stored entry ends in its only newline |
| Commits.StuckForever | aesd-char-driver/main.c:170-179 | once the pending entry has an earlier newline, no run changes the stored entries again, and the pending entry only grows |
| Draining.EntryReadWholeIff | aesd-char-driver/main.c:207-263 | in every reachable state, for every request size c, while the counter allows: the current entry takes size / c + 1 reads before the cursor moves on, and they return it if and only if c is at least its size |
| Draining.EntryCost | aesd-char-driver/main.c:233-258 | an entry of size n takes n / c + 1 of the ten reads with requests of c bytes |
| Draining.DrainEntries | aesd-char-driver/main.c:207-263 | for every request size, a drain returns each entry's pieces in order and nothing else, with the exact cursor, counter and position, as long as the counter allows the reads |
| Draining.DrainEndsAtEmpty | aesd-char-driver/main.c:218-225 | such a drain ends at the first empty slot: the next read returns 0 and changes nothing, the counter included |
| Draining.DrainEndsAtCounter | aesd-char-driver/main.c:226-258 | if the entries cost more than the counter has left, the drain is cut off inside an entry, and the read after that returns 0 and resets the counter |
| Draining.DrainFaithfulIff | aesd-char-driver/main.c:233-258 | in every reachable state, draining m entries returns their bytes if and only if none of them is larger than the request |
| Draining.DrainReturns | aesd-char-driver/main.c:207-263 | with requests larger than every entry these cases give min(occupied, 10 - counter) whole entries from the cursor on, then 0 |
| Draining.WriteOpenDrain | aesd-char-driver/main.c:183-315 | for every stream cut at or between its newlines: writing it, opening the device and draining it with requests larger than every stored line returns the stream's last ten lines, then 0 |
| Draining.DrainReturnsHistory | aesd-char-driver/main.c:183-263 | with the cursor on the oldest entry, a drain returns the remembered entries in commit order, cut off at the counter |
| Draining.FullDrainsRepeat | aesd-char-driver/main.c:226-258 | any number of open-and-drain cycles of a full ring with counter 0 return the same ten entries and restore the device |
| Draining.DrainToEnd | aesd-char-driver/main.c:207-263 | reading a ring of n entries that is not full until a read returns 0 gives min(n, 10 - counter) entries, and keeps the counter if these were all and resets it if not |
| Draining.PartialDrains | aesd-char-driver/main.c:183-263 | over any number of open-and-drain cycles of such a ring, each drain returns exactly the entries that the counter left by the earlier ones allows |
| Draining.PartialDrainsCycle | aesd-char-driver/main.c:183-263 | from counter 0 these drains go in rounds of 10 / n + 1: all but the last of a round return the n entries, the last only 10 mod n of them |
| Draining.ShortReadsRepeat | aesd-char-driver/main.c:233-251 | requests that stay inside an entry return its first bytes at every position, so two of them return the same bytes |
| Reading.ReadReturnsLength | aesd-char-driver/main.c:233-258 | a read of a non-empty entry from a position inside it, with the counter below ten, returns min(request, size - position) and as many bytes from the entry's start, adds one to the counter, and moves to the next slot and position 0 exactly if the request goes past the entry's end |
| Reading.ReadOfNothing | aesd-char-driver/main.c:218-232 | at an empty slot, or with the counter at ten, a read returns 0; only the counter changes, from ten to 0, and not at an empty slot |
| Reading.ReadRefused | aesd-char-driver/main.c:233-244 | a failing copy, or a position past the entry, gives -EFAULT and changes nothing |
| Reading.ReadUsesFetchedSize | aesd-char-driver/main.c:214-245 | if the cursor moves between the fetch of the size and the lock, the old size decides the return value and whether to move on, and the bytes are those of the new entry |
| Reading.EntryReturnValues | aesd-char-driver/main.c:233-258 | the return values of the reads of an entry, from any position in it, are what is left of it in parts of the request |
| Reading.PartsAre | aesd-char-driver/main.c:233-250 | these parts add up to what is left, are size / c + 1 in number, and are all c but the last, which is size mod c |
| Reading.DrainReturnValues | aesd-char-driver/main.c:207-263 | in every reachable state, for every request size, reading an entry from its start returns c each time and at last size mod c |
| Reading.OpenFromCursor | aesd-char-driver/main.c:183-196 | an open of a full ring leaves a reader where it is; any other open starts again at the first slot; nothing else changes |
| Reading.WriteLeavesReader | aesd-char-driver/main.c:265-315 | no write, failing or not, changes the read counter, and the cursor moves, by one slot, exactly for a commit to a full ring |
| Reading.CommitsMoveCursor | aesd-char-driver/main.c:153-180 | any number of whole lines move the indices of the device as additions do, wherever the cursor is, and leave the read counter alone |
| Reading.CommitsSkip | aesd-char-driver/main.c:153-180 | on a full ring, k lines committed in the middle of a drain make the reader skip exactly the k entries that follow its position |
| Draining.CounterBounded | aesd-char-driver/main.c:226-251 | the read counter never exceeds ten |
| Seeking.SeekOrderIsomorphism | aesd-char-driver/main.c:44-68 | accepted pairs in lexicographic order and their positions are in the same order, and different pairs have different positions |
| Seeking.SeekInRange | aesd-char-driver/main.c:57-67 | every accepted pair gives a position below the total |
| Seeking.SeekOnto | aesd-char-driver/main.c:52-68 | every position below the total comes from an accepted pair, whatever the slot sizes |
| Seeking.SeekAddressesByte | aesd-char-driver/main.c:38-68 | in every owned state a pair is accepted if and only if the command is below 10 and the offset is inside that slot's bytes, and its position is that byte's place among all stored bytes |
| Seeking.TotalIndependentOfCursor | aesd-char-driver/main.c:86-92 | the total summed over physical slots is the total the search sums from the cursor |
| Seeking.SeekThenSearch | aesd-char-driver/main.c:52-68 | with the cursor at 0, searching for the position of (command, 0) returns that command's slot, byte 0, if and only if the slot before it is not empty and truncation leaves the comparisons up to it unchanged, as it does up to 32767 stored bytes |
| Seeking.LlseekReaches | aesd-char-driver/main.c:97-118 | SEEK_SET and SEEK_CUR reach the same positions, exactly those from 0 to the total |
| Seeking.LlseekCountsFrom | aesd-char-driver/main.c:86-118 | SEEK_SET, SEEK_CUR and SEEK_END reach exactly the positions from 0 to the number of stored bytes, counted from 0, from the position and from out_offs; any other base is -EINVAL |
| Seeking.SeekEndIsSizeIff | aesd-char-driver/main.c:105-107 | SEEK_END with offset 0 returns the stored size if and only if the cursor's slot number equals it |
| Server.RunInv | server/aesdsocket.c:167-286 | every step of every thread keeps the mutex and device invariants |
| Server.RingIsLastTenCommits | server/aesdsocket.c:358-385 | in every interleaving the ring from in_offs is the last ten commits in order, full iff there were ten, and the live blocks are exactly those pointed to |
| Server.RingIsLastTenMessages | server/aesdsocket.c:231-233 | if all messages so far are single lines and no append failed, the ring is the last ten messages in the order the mutex admitted them, and an unfinished message is invisible |
| ServerTrace.ReceiveStartsMessage | server/aesdsocket.c:192-233 | a buffer received starts a message if and only if it has 1 to 10239 bytes, does not begin with the seek command and ends in a newline; the text is the buffer up to its first 0; after any other buffer the thread goes on receiving, its position moved exactly by a valid seek |
| ServerTrace.MessagesAreReceived | server/aesdsocket.c:192-234 | over every run the messages are, one for each append begun and in mutex order, texts of different buffers received earlier by the appending thread; and every message received has been begun, is still carried by its thread, or was lost to a failing open |
| ServerTrace.AbandonedIff | server/aesdsocket.c:372-377 | an append has met an error if and only if some flush failed |
| ServerTrace.RingIsLastTenSent | server/aesdsocket.c:192-234 | if the messages clients sent were single lines and no flush failed, the ring is the last ten buffers received, byte for byte, in mutex order, and one being appended is not visible before its last byte |
| ServerFlow.ActProceeds | server/aesdsocket.c:167-286 | each step goes on to the next stage of the connection, leaves some out only for one of the listed failures or the end of input, and stays only where it must wait, retry or receive again |
| ServerFlow.OneMessageEach | server/aesdsocket.c:231-276 | over every run a connection begins at most one message |
| ServerFlow.MessageIsReadBack | server/aesdsocket.c:231-240 | a thread that received a message and has returned has finished the append, taken the mutex again, asked for the size and gone to the allocation, whatever failed before |
| ServerFlow.ReturnedSilentIff | server/aesdsocket.c:240-286 | a returned thread has not reported completion if and only if reading back failed: no memory, not the number of bytes asked for, or no send |
| ServerFlow.OpenActsOnTest | aesd-char-driver/main.c:183-196 | whatever others do between the two steps of an open, it moves the cursor if and only if the ring was not full at the first, then to 0, and changes nothing else; a connection then receives at position 0 |
| ServerFlow.ReadBackSize | server/aesdsocket.c:237-252 | over every run a thread reads back from position 0 as many bytes as the slot number at which the cursor stood when it asked for the size, with the size of the entry that was at the cursor when its read began |
| ServerFlow.ReadBackOutcome | server/aesdsocket.c:251-262 | that read changes the cursor and the counter as a read does, and the thread goes on to send if and only if it got the number of bytes asked for |
| Server.InnerNewlineSticks | aesd-char-driver/main.c:153-180 | with nothing pending, a message flushed in one write blocks the device if and only if it has a newline before its last byte |
| Server.StuckForAll | aesd-char-driver/main.c:170-179 | from then on, whatever any client does in any interleaving, the stored entries, the write index and the flag never change and the pending entry only grows |
| Server.MutualExclusion | server/aesdsocket.c:235-275 | at most one thread is in a critical section, none locks what it holds, none returns holding it, on any exit path |
| Server.CompleteMeansReturned | server/aesdsocket.c:279-286 | in every interleaving a thread whose completion flag is set has returned and does not hold the mutex |
| Server.CursorRestsUntilFull | server/aesdsocket.c:237-252 | in every interleaving out_offs is 0 until the tenth commit, because the size read back is SEEK_END, which is out_offs; so the test for becoming full is always right |
| Server.HolderReleases | server/aesdsocket.c:240-275 | from any state a thread in a section can leave it within four of its own steps even if every call fails |
| Server.SectionEnds | server/aesdsocket.c:235-275 | for any schedule of the other threads and any results of the holder's calls, the mutex is given back within a number of the holder's progressing steps bounded by what is left of its message |
| Tailq.Init | server/queue.h:448-451 | the empty queue |
| Tailq.InsertHead | server/queue.h:453-461 | prepends |
| Tailq.InsertBefore | server/queue.h:463-468 | inserts before a member, without the head |
| Tailq.InsertAfter | server/queue.h:470-479 | inserts after a member |
| Tailq.InsertTail | server/queue.h:481-486 | appends |
| Tailq.Concat | server/queue.h:488-495 | appends the second queue to the first and empties it, for empty and non-empty queues |
| Tailq.Remove | server/queue.h:497-504 | removes a member, touching only the head and its neighbours |
| Tailq.Replace | server/queue.h:506-515 | replaces a member in its place |
| Tailq.Swap | server/queue.h:517-534 | exchanges the two sequences, for empty and non-empty queues |
| Tailq.SwapTwice | server/queue.h:517-534 | two swaps restore every link of both queues |
| Tailq.Last | server/queue.h:541-542 | the double read through a head pointer yields the last member, NULL if empty |
| Tailq.Prev | server/queue.h:544-545 | the double read through a head pointer yields the previous member, NULL before the first |
| Tailq.Foreach | server/queue.h:549-552 | visits exactly the sequence |
| Tailq.ForeachReverse | server/queue.h:559-562 | visits exactly the reversed sequence |
| Tailq.RemoveDuringReverse | server/queue.h:564-567 | removing any subset while walking backwards visits every member once and leaves the others in order |
| Stailq.InsertHead | server/queue.h:320-325 | prepends, keeping the tail cell |
| Stailq.InsertAfter | server/queue.h:327-333 | inserts after a member, keeping the tail cell |
| Stailq.InsertTail | server/queue.h:335-339 | appends |
| Stailq.Concat | server/queue.h:341-347 | appends the second queue to the first and empties it |
| Stailq.RemoveHead | server/queue.h:349-354 | removes the first member |
| Stailq.RemoveHeadUntil | server/queue.h:356-361 | removes everything up to and including a member |
| Stailq.RemoveAfter | server/queue.h:363-369 | removes the member after a given one |
| Stailq.Remove | server/queue.h:371-385 | the search for the predecessor ends, and the member is removed |
| Stailq.Swap | server/queue.h:387-400 | exchanges the two sequences, for empty and non-empty queues |
| Stailq.SwapTwice | server/queue.h:387-400 | two swaps restore both heads |
| Stailq.Last | server/queue.h:406-410 | the element around the tail cell is the last member, NULL if empty |
| Stailq.RunThenInsertTail | server/queue.h:315-400 | any run of allowed operations, including init, concatenation and swap with a second queue, acts as the run on sequences, and a tail insertion after it appends |
| Circleq.InsertHead | server/queue.h:595-604 | prepends |
| Circleq.InsertBefore | server/queue.h:606-615 | inserts before a member |
| Circleq.InsertAfter | server/queue.h:617-626 | inserts after a member |
| Circleq.InsertTail | server/queue.h:628-637 | appends |
| Circleq.Remove | server/queue.h:639-650 | removes a member |
| Circleq.Foreach | server/queue.h:677-680 | visits exactly the sequence |
| Circleq.ForeachReverse | server/queue.h:688-691 | visits exactly the reversed sequence |
| Circleq.LoopInverse | server/queue.h:699-707 | the two circular steps undo each other, for every member |
| Circleq.FullCircle | server/queue.h:699-707 | as many steps as there are members lead back to the start, in either direction |
| Slist.InsertHead | server/queue.h:146-149 | prepends |
| Slist.Remove | server/queue.h:165-176 | the search for the predecessor ends, and the member is removed by changing one link |
| Slist.Swap | server/queue.h:178-182 | exchanges the two sequences |
| Reaper.ReapList | server/aesdsocket.c:141-150 | while flags flip at any time, one pass keeps in order exactly the threads it saw incomplete, joins the others, and keeps none that was complete when it began |
| Reaper.Acceptor.Reap | server/aesdsocket.c:141-150 | the pass keeps every created thread in exactly one of the list and the joined ones |
| Reaper.Acceptor.Accept | server/aesdsocket.c:107-150 | a new connection's record is put in front of the list, then one pass runs over the whole list; the threads it joins had reported completion |
| Reaper.Acceptor.Cleanup | server/aesdsocket.c:156-165 | joins all threads in the list, in order, and empties it |
| Reaper.MainLoop | server/aesdsocket.c:104-165 | over every run the created threads are, in order, one for each round that brought a connection and none for a failed accept; every one is joined exactly once, and the list ends empty |

## Left out

- Socket set-up, accept, daemon mode, signals and logging: what they decide enters as inputs (`Choice`, `Round`).
- `aesd_ioctl`: command decoding and the copy of its argument; seeks start from given numbers.
- The bytes the server sends back to a client: they depend on `SEEK_END` and on one partial read.
- The heap of the server process (receive buffers, list records, the file buffer) is not modelled.
- Failing `kmalloc`, sizes beyond `int`, and `mutex_lock_interruptible` returning early are not modelled.
- Device calls are atomic steps, except that open is a test and a reset, and that a read fetches the entry size
  before it locks; these two are where the driver itself works outside its lock.
- Kernel block names are never reused, so reuse of a freed address is not modelled.
- Server.RingIsLastTenCommits: assumes that only the server uses the device and that allocations and copies succeed.
- Commits.RingIsLastTenLines: chunks are non-empty, since a zero-byte write with nothing pending commits an empty entry.
- SLIST_HEAD_INITIALIZER, CIRCLEQ_REPLACE and CIRCLEQ_FOREACH_REVERSE_SAFE: their text does not compile for the usual heads.
- The LIST macros and the remaining SLIST macros: they would only add easier members.
- The command-line utilities, shell scripts and student tests of the repository.
