# Input watchdog and remote memory accessor of The Witness randomizer

The randomizer runs beside the game and works on the game's process through
`ReadProcessMemory` / `WriteProcessMemory`. This project models two parts of
it and proves what they do.

- **The remote memory accessor** (class `Memory`, `Source/Memory.h`):
  - Base-relative reads and writes.
  - The bounded retry loops of `ReadAbsolute` / `WriteAbsolute`. With
    `retryOnFail` there are at most 10000 attempts; without it there is one.
  - The memoised pointer-chain resolver `ComputeOffset` and `ClearOffsets`.
  - `ReadData` / `WriteData` and the panel chains
    `{GLOBALS, 0x18, panel*8, offset}`.
  - The array bookkeeping of `ReadArray` / `WriteArray`: the tracked sizes,
    cache eviction and reallocation.
  - The contract of the signature scan `executeSigScan`.
- **The input watchdog** (class `InputWatchdog`, `Source/Input.cpp`):
  - The per-tick key diff that records press times and taps.
  - The interaction state derived from the interact mode and the
    menu-open fraction, and the fallbacks when these cannot be read.
  - The two drain calls.
  - The 42-byte x86-64 stub that `getMouseRay` patches and injects.
  - The two offset finders that turn a signature-scan hit and a
    RIP-relative displacement into a module-relative offset.

The target process is a partial map from address to byte. The OS calls are
oracles fixed when the accessor is created:
- `flaky(k)` says whether OS call number k fails transiently.
- `allocator(n)` is the address the n-th `VirtualAllocEx` returns (0 means
  failure).

A read or write succeeds iff its range is mapped and its call is not flaky.
The accessor counts its OS calls, so "no OS call was made" and "at most 10000
attempts" are statements about that count.

Each class method is proved against a function of the accessor's state
(module `Accessor`, and the functions of `InputWatchdogs`, `KeyTracking`,
`Interaction`, `MouseRayStub`). Lemmas next to those functions state what
they mean.

The bodies of `ComputeOffset` and `executeSigScan` are not in the source.
They are modelled from their documented contracts:
- `ComputeOffset` follows a pointer at every offset but the last, starting at
  the module base.
- Its memo table maps the address of each pointer field it read to the
  pointer it read there. This follows the table's type,
  `std::map<uintptr_t, uintptr_t>`, and the eviction calls in
  `ReadArray`/`WriteArray`, which erase a field's address.
- A missed lookup costs one read attempt.

The key diff counts time in integer milliseconds. The tap test is
`now - pressTime <= 400`, with the `<=` the code uses. The menu fraction is
kept as its float32 bits. `>= 1.f` is decided from the bits, and
`Interaction.AtLeastOneIsComparison` ties this to the real value the bits
denote.

## Model

| member | source | states |
|---|---|---|
| Bytes.Wrap64 | Source/Input.cpp:80 | uint64_t arithmetic: the result is the integer itself when it is in range, and otherwise differs from it by a multiple of 2^64 |
| Bytes.EncodeByteAt | Source/Input.cpp:94-101 | byte i of the little-endian encoding of x is `(x >> 8*i) & 0xff`, the expression the stub patching writes |
| Bytes.Le64RoundTrip | Source/Input.cpp:94-117 | encoding a 64-bit value as 8 little-endian bytes and decoding them are inverse in both directions |
| Bytes.U32Of | Source/Input.cpp:279-281 | the value of 4 bytes read into the low half of a zeroed uint64_t; re-encoding it gives back the 4 bytes |
| Bytes.Int32Of | Source/Input.cpp:227 | an int32_t read from 4 little-endian bytes lies in [-2^31, 2^31) and is 0 iff all 4 bytes are 0 |
| Bytes.DecodeEncode | Source/Input.cpp:94-117 | decoding the n-byte little-endian encoding of x < 256^n gives x |
| Bytes.EncodeDecode | Source/Memory.h:304 | encoding the decoded value of a byte string to its own length gives the string back |
| TargetMemory.LoadStore | Source/Memory.h:83-93 | a written range reads back as the data written, and a disjoint range reads as before |
| TargetMemory.Commit | Source/Memory.h:38-42 | a committed allocation of n bytes is readable and keeps what was mapped before |
| TargetMemory.ScanRegion | Source/Memory.h:288-291 | the bytes a scan from the start address sees are readable, are what the target holds there, and end before the end of user space |
| SigScan.ScanFromMeaning | Source/Memory.h:288-292 | the search from offset p returns the first match at or after p that the delegate accepts, or UINT64_MAX when there is none |
| SigScan.ExecuteSigScan | Source/Memory.h:288-296 | UINT64_MAX iff no offset holds an accepted match; otherwise the result is an accepted match and no smaller offset holds one |
| SigScan.SingleOccurrenceFound | Source/Memory.h:288-289 | without a delegate, a signature that occurs at exactly one offset is found at that offset |
| SigScan.RejectingDelegateNotFound | Source/Memory.h:290 | a delegate that discards every match makes the scan return UINT64_MAX |
| OffsetResolver.Walk | Source/Memory.h:229-233 | the memoised walk never lowers the OS call count |
| OffsetResolver.WalkKeepsCache | Source/Memory.h:232 | the walk keeps every memoised entry as it was |
| OffsetResolver.WalkAddsFreshEntries | Source/Memory.h:232 | every entry the walk adds holds the pointer the target holds at that field |
| OffsetResolver.WalkStep | Source/Memory.h:229-231 | one step of the walk dereferences the current field (memo hit, memoised read, or failure) and continues with the rest of the chain |
| OffsetResolver.WalkLast | Source/Memory.h:229-231 | the last offset is added without a dereference and without an OS call |
| OffsetResolver.WalkAgainIsAHit | Source/Memory.h:232 | resolving a resolved chain again, with nothing evicted, gives the same address and the same memo table, with no OS call, whatever the target holds by then |
| OffsetResolver.CoherentWalkResolves | Source/Memory.h:229-231 | with a memo table that agrees with the target, the walk returns only the address the reference resolution gives, fails whenever that resolution fails, and keeps the table in agreement |
| OffsetResolver.WalkExtend | Source/Memory.h:99-104 | the chain `{..., offset, 0}` is the chain `{..., offset}` followed by a dereference of the field it names |
| Accessor.LastAttemptIsFirstSuccess | Source/Memory.h:67-73 | every attempt before the last one failed, and the last one succeeded unless the attempts ran out |
| Accessor.RetrySucceedsIffSomeAttemptDoes | Source/Memory.h:64-74 | the retry loop succeeds iff some call it may make succeeds |
| Accessor.LastAttemptUnique | Source/Memory.h:83-93 | the last attempt is the only call number consistent with the retry loop's exit |
| Accessor.RelativeToAbsolute | Source/Memory.h:58-61 | a relative address plus the base; subtracting the base (mod 2^64) gives the relative address back |
| Accessor.ReadAbsoluteMeaning | Source/Memory.h:64-74 | a read makes between 1 and AttemptLimit (1, or 10000 with retryOnFail) calls; it succeeds iff one of them succeeds and then returns the target's bytes; a failure used up every attempt; nothing but the call count changes |
| Accessor.WriteAbsoluteMeaning | Source/Memory.h:83-93 | a write makes between 1 and AttemptLimit calls; it succeeds iff one of them succeeds, and then it has stored the data over exactly [addr, addr + n), which reads back as written; a failed write leaves the target as it was |
| Accessor.ComputeOffsetMeaning | Source/Memory.h:229-233 | ComputeOffset changes only the memo table, which it only extends, and the call count; with a table that agrees with the target it returns the reference resolution's address and keeps the table in agreement |
| Accessor.ReadAbsolute | Source/Memory.h:63-74 | the retry loop as a function: calls numbered from the current count up to AttemptLimit, stopping at the first success (its meaning: ReadAbsoluteMeaning) |
| Accessor.WriteAbsolute | Source/Memory.h:82-93 | the write retry loop as a function (its meaning: WriteAbsoluteMeaning) |
| Accessor.ComputeOffset | Source/Memory.h:229-233 | the memoised walk from the module base (its meaning: ComputeOffsetMeaning) |
| Accessor.ReadArray | Source/Memory.h:95-105 | ReadArray as a function: the traced-edge eviction, the size record and the read through `{..., offset, 0}` (its meaning: ReadArraySizes, ReadArrayEviction, ReadArrayReadsTheArray) |
| Accessor.WriteArray | Source/Memory.h:107-119 | WriteArray as a function: GrowArray, then WriteData through `{..., offset, 0}` (its meaning: WriteArraySizes, WriteArrayWritesTheArray) |
| Accessor.GrowArray | Source/Memory.h:110-116 | the default-inserted tracked size and the reallocation when the items do not fit (its meaning: ReallocateMeaning, ReallocatePointsField) |
| Accessor.WriteArrayForced | Source/Memory.h:121-126 | the forced overload: reset the tracked size, then WriteArray (its meaning: WriteArrayForcedReallocates) |
| Accessor.ReadData | Source/Memory.h:300-309 | ReadData changes only the memo table and the call count |
| Accessor.AllocArray | Source/Memory.h:38-47 | an allocation returns the allocator's next address and counts one VirtualAllocEx call; it changes nothing else but the target |
| ArrayBookkeeping.ReadArraySizes | Source/Memory.h:96-105 | ReadArray of 0 items changes nothing; a non-empty one records the size read under (panel, offset), unless resolving the traced field fails first; it never writes the target or allocates |
| ArrayBookkeeping.ReadArrayEviction | Source/Memory.h:99-102 | for offsets 0x230/0x238 the field's memoised pointer from before is gone: afterwards the table holds for it nothing or the target's current pointer; for other offsets the table keeps all it held |
| ArrayBookkeeping.ReadArrayReadsTheArray | Source/Memory.h:96-105 | with a table that agrees with the target, a successful ReadArray returns the bytes of the array the panel's pointer field points to |
| ArrayBookkeeping.ReadDataReadsResolved | Source/Memory.h:300-309 | with a table that agrees with the target, a successful ReadData returns the bytes where the reference resolution of the chain points |
| ArrayBookkeeping.ReadPanelDataMeaning | Source/Memory.h:129-132 | 0 items reads and changes nothing; otherwise, with a memo table that agrees with the target, a successful read returns the bytes at the panel's field; the target, allocations and tracked sizes never change |
| ArrayBookkeeping.WriteDataStores | Source/Memory.h:312-318 | a successful WriteData has stored the data over exactly the range where the chain resolved (the reference resolution's address when the memo table agrees with the target), without touching the memo table; a failed one leaves the target as it was |
| ArrayBookkeeping.EvictFieldMeaning | Source/Memory.h:113 | the eviction resolves the panel's field and erases exactly its memo entry, so the next walk through the field memoises what the target holds then; when the field cannot be resolved it fails |
| ArrayBookkeeping.ReallocatePointsField | Source/Memory.h:111-117 | a successful reallocation has made one allocation, and resolving the panel's field again is a memo hit, with no OS call, at which the target holds the allocator's address |
| ArrayBookkeeping.WriteArrayWritesTheArray | Source/Memory.h:107-119 | a successful non-empty WriteArray stores the items over exactly the range the array chain resolves to: without a reallocation and with a memo table that agrees with the target, the array the panel's field points to; after a reallocation, the fresh array, unless the memo table holds a pointer for the field itself |
| ArrayBookkeeping.GrownArrayIsFresh | Source/Memory.h:115-118 | after a successful reallocation, a walk of the array chain that does not find the field memoised reads the fresh array's address from it |
| ArrayBookkeeping.ReadFieldAfterWalk | Source/Memory.h:118 | extending a walk that ends at an unmemoised field by the final 0 reads the pointer the target holds at that field |
| ArrayBookkeeping.WriteArraySizes | Source/Memory.h:110-116 | the size and allocation bookkeeping of WriteArray: no data changes nothing; otherwise the tracked size is never raised (an untracked field only gets 0), nothing is allocated when the items fit, and at most one allocation is made |
| ArrayBookkeeping.ReallocateMeaning | Source/Memory.h:113-115 | the reallocation allocates exactly once unless resolving the field fails first, a successful one has allocated, and the tracked sizes are untouched |
| ArrayBookkeeping.WriteArrayForcedReallocates | Source/Memory.h:121-126 | a forced write of at least one item leaves the tracked size 0 and allocates unless it fails; an unforced one is the plain WriteArray |
| RemoteMemory.Memory.constructor | Source/Memory.h:286 | a fresh accessor retries on failure, has made no OS call, and has an empty memo table and no tracked sizes |
| RemoteMemory.Memory.ReadProcessMemory | Source/Memory.h:67 | one read call: counted, and it succeeds exactly as the oracle says, returning the target's bytes |
| RemoteMemory.Memory.WriteProcessMemory | Source/Memory.h:86 | one write call: counted, and it succeeds exactly as the oracle says, storing the data |
| RemoteMemory.Memory.ReadAbsolute | Source/Memory.h:64-74 | the retry loop's result and new state are Accessor.ReadAbsolute's |
| RemoteMemory.Memory.WriteAbsolute | Source/Memory.h:83-93 | the retry loop's result and new state are Accessor.WriteAbsolute's |
| RemoteMemory.Memory.ReadRelative | Source/Memory.h:58-61 | a relative read is the absolute read at the relative address plus the base |
| RemoteMemory.Memory.WriteRelative | Source/Memory.h:77-80 | a relative write is the absolute write at the relative address plus the base |
| RemoteMemory.Memory.ComputeOffset | Source/Memory.h:229-233 | the loop over the offsets computes the memoised walk (Accessor.ComputeOffset) |
| RemoteMemory.Memory.Follow | Source/Memory.h:232 | one dereference: from the memo table, or one read that is memoised when it succeeds |
| RemoteMemory.Memory.ClearOffsets | Source/Memory.h:235-236 | the memo table is empty afterwards and nothing else changes |
| RemoteMemory.Memory.ReadData | Source/Memory.h:300-309 | resolve, then read; either failure is an error |
| RemoteMemory.Memory.WriteData | Source/Memory.h:312-318 | resolve, then write, either failure being an error: the method is Accessor.WriteData, which stores the data where the chain resolves (ArrayBookkeeping.WriteDataStores) |
| RemoteMemory.Memory.ReadPanelData | Source/Memory.h:129-132 | 0 items is no read; otherwise a ReadData of size*elemSize bytes through the panel chain |
| RemoteMemory.Memory.ReadPanelValue | Source/Memory.h:135-145 | one item through the panel chain, or an error |
| RemoteMemory.Memory.WritePanelData | Source/Memory.h:147-149 | a WriteData through the panel chain |
| RemoteMemory.Memory.AllocArray | Source/Memory.h:38-47 | one VirtualAllocEx, whose region reads as zeros when it succeeds |
| RemoteMemory.Memory.EvictField | Source/Memory.h:101 | erases the memo entry at the address the panel chain names |
| RemoteMemory.Memory.ReadArray | Source/Memory.h:96-105 | the method's result and new state are Accessor.ReadArray's |
| RemoteMemory.Memory.Reallocate | Source/Memory.h:111-117 | evict, allocate, write the new pointer into the field: the method is Accessor.Reallocate, which leaves the field holding the fresh array's address (ArrayBookkeeping.ReallocatePointsField) |
| RemoteMemory.Memory.WriteArray | Source/Memory.h:107-119 | the method is Accessor.WriteArray, which stores the items where the array chain resolves, at the fresh array after a reallocation (ArrayBookkeeping.WriteArrayWritesTheArray) |
| RemoteMemory.Memory.WriteArrayForced | Source/Memory.h:121-126 | the method's result and new state are Accessor.WriteArrayForced's |
| RemoteMemory.Memory.ExecuteSigScan | Source/Memory.h:288-296 | UINT64_MAX iff the readable memory from the start address holds no accepted match; otherwise the first accepted match's offset from the start |
| KeyTracking.DiffNext | Source/Input.cpp:166-202 | the diff over one more key is one more KeyStep |
| KeyTracking.KeyStep | Source/Input.cpp:171-194 | the diff's step for one key: a rise records the time, a fall with a press time drops it and appends a tap when held at most 400 ms (its meaning: DiffPressTimes, DiffPending) |
| KeyTracking.Diff | Source/Input.cpp:166-202 | the diff over keys 1 .. n-1 in increasing order (its meaning: DiffPressTimes, DiffPending, DiffSeesOnlyZeroness) |
| KeyTracking.Taps | Source/Input.cpp:177-194 | the taps of a tick are exactly the keys 1..n-1 that were released, had a press time and were held at most 400 ms, in strictly increasing key order |
| KeyTracking.DiffPressTimes | Source/Input.cpp:173-194 | after the diff a key that went from 0 to nonzero has the current time, one that went from nonzero to 0 has no press time, and every other key keeps its entry |
| KeyTracking.DiffPending | Source/Input.cpp:177-194 | the tick appends exactly the taps, in increasing key order, to the pending list |
| KeyTracking.DiffSeesOnlyZeroness | Source/Input.cpp:166-172 | tables that agree on which keys are zero give the same diff (3 and 5 act like any nonzero value), and key 0 is never looked at |
| KeyTracking.UpdateKeysMeaning | Source/Input.cpp:156-221 | a failed poll changes nothing; after a successful one the new table is kept, exactly the taps are appended to the pending list in key order, and the press times change key by key |
| Interaction.AtLeastOneIsComparison | Source/Input.cpp:39 | for a finite float32 the bit test equals the real comparison `value >= 1` |
| Interaction.StateOf | Source/Input.cpp:38-54 | Menu iff the fraction is at least 1; Unknown iff it is not and the mode is outside 0..3 |
| Interaction.MenuIffFullyOpen | Source/Input.cpp:38-54 | with a finite fraction, Menu iff the fraction is at least 1, whatever the mode; below 1 the four mode codes give four different states |
| Interaction.FallbackIsWalking | Source/Input.cpp:227-233 | mode 2 with fraction 0.0f gives Walking |
| Interaction.RepeatCount | Source/Input.cpp:56-66 | over k calls with the state changed, the as-written version reports k changes and the corrected one reports 1 |
| Interaction.AsWrittenReportsRepeatedly | Source/Input.cpp:60 | as written, one change of state is reported by every later call |
| Interaction.CorrectedReportsOnce | Source/Input.cpp:60 | corrected, one change of state is reported once |
| Interaction.FindersAreRipRelative | Source/Input.cpp:280-283 | the finders' zero-extending sums equal the RIP-relative target (next instruction plus the sign-extended displacement) iff the displacement is not negative |
| Interaction.InteractModeOffsetFrom | Source/Input.cpp:279-282 | the displacement zero-extended into a uint64_t plus the scan offset (its meaning: FindersAreRipRelative) |
| Interaction.MenuOpenOffsetFrom | Source/Input.cpp:308-313 | the displacement zero-extended plus the scan offset + 24 + 4 (its meaning: FindersAreRipRelative) |
| MouseRayStub.Patch | Source/Input.cpp:94-101 | the 8 bytes at the slot are the little-endian encoding of the value, and every other byte is unchanged |
| MouseRayStub.Stub | Source/Input.cpp:85-117 | the template with the three slots patched (its meaning: StubSlots, StubDisassembly, StubFollowsCallingConvention) |
| MouseRayStub.StubSlots | Source/Input.cpp:85-117 | the stub is 42 bytes; the slots at 2, 12 and 22 decode to the function, mouseFloats and results; every other byte is the template's |
| MouseRayStub.DecodeAt | Source/Input.cpp:85-92 | a decoded instruction has a length of at least 1 and lies inside the code |
| MouseRayStub.EpilogueDisassembly | Source/Input.cpp:89-92 | the bytes `sub rsp,48; call rax; add rsp,48; ret` decode to those four instructions |
| MouseRayStub.DisassembleLaidOut | Source/Input.cpp:85-92 | bytes laid out as three MOV r64, imm64 (REX.W B8+rd) and the epilogue decode to that program |
| MouseRayStub.StubDisassembly | Source/Input.cpp:85-117 | the patched stub decodes to: rax := function, rdx := mouseFloats, rcx := results, sub rsp, call rax, add rsp, ret |
| MouseRayStub.StubFollowsCallingConvention | Source/Input.cpp:85-92 | results is the first argument (rcx) and mouseFloats the second (rdx); the call finds rsp 16-byte aligned with shadow space, and the stub returns with rsp as it found it |
| MouseRayStub.PutLE64 | Source/Input.cpp:94-101 | the eight in-place byte assignments patch the slot with the value's encoding |
| MouseRayStub.BuildStub | Source/Input.cpp:85-117 | the buffer built is the template with the three values patched in |
| InputWatchdogs.KeySnapshot | Source/Input.cpp:154-160 | a snapshot, when there is one, has 0x200 entries |
| InputWatchdogs.KeyTableOfLoad | Source/Input.cpp:157-158 | the table decoded from the bytes read at addr is the one the target holds there |
| InputWatchdogs.KeySnapshotMeaning | Source/Input.cpp:154-160 | taking a snapshot changes only the memo table and the call count, and a snapshot is the table the target holds at the resolved address |
| InputWatchdogs.InteractionReadMeaning | Source/Input.cpp:224-233 | only the call count changes, by one read with its retries per known offset and none for an unknown one; an unknown offset or a failed read leaves the fallback (mode 2, fraction 0.0f), a successful read gives the target's value; the two fallbacks together give Walking |
| InputWatchdogs.InteractionRead | Source/Input.cpp:224-233 | the two relative reads with their fallbacks (its meaning: InteractionReadMeaning, InteractionReadFromTarget) |
| InputWatchdogs.FoundInteractModeOffset | Source/Input.cpp:273-286 | the interact-mode finder after the scan (its meaning: FindersMeaning) |
| InputWatchdogs.FoundMenuOpenOffset | Source/Input.cpp:296-317 | the menu-open finder after the scan (its meaning: FindersMeaning) |
| InputWatchdogs.InteractionReadFromTarget | Source/Input.cpp:227-231 | with both reads succeeding, the mode and fraction are the target's values |
| InputWatchdogs.FindersMeaning | Source/Input.cpp:273-286 | a missing signature gives 0 without a read; a successful read of a non-negative displacement gives the RIP-relative operand's target |
| InputWatchdogs.InputWatchdog.constructor | Source/Input.cpp:22-26 | the watchdog runs both finders in order; keys start released, with no press times or taps, and the mode and fraction start at their fallbacks |
| InputWatchdogs.InputWatchdog.LocateOffsets | Source/Input.cpp:23-24 | findInteractModeOffset, then findMenuOpenOffset |
| InputWatchdogs.InputWatchdog.ButtonState | Source/Input.cpp:33-36 | a key is pressed iff its value is nonzero |
| InputWatchdogs.InputWatchdog.GetInteractionState | Source/Input.cpp:38-54 | the state is StateOf of the current mode and fraction |
| InputWatchdogs.InputWatchdog.UpdateKeyState | Source/Input.cpp:136-222 | the tick's table, press times, taps and accessor state are those of KeySnapshot and UpdateKeys |
| InputWatchdogs.InputWatchdog.ReadKeyState | Source/Input.cpp:154-160 | resolves the key table and reads it, as KeySnapshot says |
| InputWatchdogs.InputWatchdog.DiffKeys | Source/Input.cpp:166-202 | the loop over keys 1..0x1FF computes Diff |
| InputWatchdogs.InputWatchdog.SaveKeys | Source/Input.cpp:221 | the kept table is the new one |
| InputWatchdogs.InputWatchdog.UpdateInteractionState | Source/Input.cpp:224-233 | the mode, fraction and accessor state are InteractionRead's |
| InputWatchdogs.InputWatchdog.ConsumeTapEvents | Source/Input.cpp:68-72 | returns the pending taps in order and leaves none pending |
| InputWatchdogs.InputWatchdog.ConsumeInteractionStateChange | Source/Input.cpp:56-66 | corrected: reports a change and remembers the current state |
| InputWatchdogs.InputWatchdog.ConsumeInteractionStateChangeAsWritten | Source/Input.cpp:56-66 | as written: reports a change and never updates the remembered state |
| InputWatchdogs.InputWatchdog.FindInteractModeOffset | Source/Input.cpp:263-287 | the offset and accessor state are FoundInteractModeOffset's for the scan's result |
| InputWatchdogs.InputWatchdog.ApplyInteractModeDisplacement | Source/Input.cpp:273-286 | 0 for a missing signature or a failed read; otherwise the displacement read at scan - 4 plus scan |
| InputWatchdogs.InputWatchdog.FindMenuOpenOffset | Source/Input.cpp:289-318 | the offset and accessor state are FoundMenuOpenOffset's for the scan's result |
| InputWatchdogs.InputWatchdog.ApplyMenuOpenDisplacement | Source/Input.cpp:296-317 | 0 for a missing signature or a failed read; otherwise the displacement read at scan + 24 plus scan + 28 |
| InputWatchdogs.InputWatchdog.BuildMouseRayStub | Source/Input.cpp:74-117 | reads the gesture manager pointer (with retries) and builds the stub for the function, mouseFloats and results |

## Left out

- Source/Watchdog.h is not part of this model: the watchdog thread, its timer and `action()`'s scheduling. Each method here is one call.
- Singleton, locking: `InputWatchdog::initialize`/`get` and the recursive mutex are lifecycle and concurrency concerns. Every operation is modelled as running alone.
- OS calls are oracles (`flaky`, `allocator`). Process attach, handles, `VirtualAllocEx` protection flags and leaked allocations are not modelled.
- A failed `ReadProcessMemory` is assumed to leave its buffer as it was. A partial read or write is not modelled.
- The hidden bodies of `ComputeOffset` and `executeSigScan` are modelled from their documented contracts. The memo table is keyed by the address of each pointer field.
- `ThrowError` is not in the source. It is modelled as aborting the operation with an error result.
- `executeSigScan`'s search over the target is modelled as a search over the readable run of bytes from the start address. The index passed to the delegate counts earlier byte-identical matches.
- `getMouseRay` after the stub is built is not modelled: writing the stub to the target, `CreateRemoteThread`, `WaitForSingleObject`, the read-back of the direction vector and `ReadPlayerPosition`. The effect of running the stub is described by MouseRayStub.StubFollowsCallingConvention.
- `findCursorRelatedOffsets` is not modelled. Its two results are constructor parameters.
- Input.h is not part of this model. The initial field values the constructor ensures (released keys, mode 2, fraction 0.0f, remembered state Walking, offsets 0 before the finders) are assumptions, and so is the key table size 0x200, taken from the read size at Source/Input.cpp:158.
- Interaction.StateOf: for a mode outside 0..3 the source falls off the end of `getInteractionState` without returning. The model returns an explicit Unknown.
- KeyTracking.KeyStep: time is integer milliseconds read once per tick. The source reads the clock separately for each key and compares float seconds with 0.4f, so float rounding at the boundary is not modelled. The test is `<=`, as the code writes it.
- Accessor.PanelChain: `panel * 8` is computed without 32-bit int overflow.
- Accessor.AllocArray: the `static_cast<int>` of the item count and the int multiplication by `sizeof(T)` are not modelled. The allocation is the data's byte count.
- ArrayBookkeeping.WriteArrayWritesTheArray: after a reallocation, the fresh array's address is stated only when the memo table does not hold a pointer for the panel's field. That field can be memoised again by an earlier walk when its address is also a pointer field that walk dereferenced. The items then go where the stale memoised pointer leads, as they would with the source's own cache.
- Accessor.WriteArray: the data is a byte sequence of items of `elemSize` bytes, and the item count is `|data| / elemSize`. Tracked sizes are natural numbers, so the source's int counts are never negative here.
- Floating point: the menu fraction is kept as its float32 bits. `WriteMovementSpeed`, the cursor colour and size writes, and the direction vector are not modelled.
- Memory.h members whose bodies are not in the source (`CallVoidFunction`, `PowerNext`, `DisplayHudMessage`, `findGlobals` and the rest) are not modelled.
- The `PRINT_INPUT_DEBUG` logging is not modelled.

## Findings

| source | as written | input that shows it | evidently intended | confidence | as-written member | corrected member |
|---|---|---|---|---|---|---|
| Source/Input.cpp:60 | `previousInteractionState == currentInteractionState;` compares and discards the result, so the remembered state never changes | remembered state Walking, current state Menu: every call of consumeInteractionStateChange returns true for as long as the menu stays open | `=`: remember the new state, so that one change is reported once | high, not executed | Interaction.AsWrittenReportsRepeatedly | Interaction.CorrectedReportsOnce |
