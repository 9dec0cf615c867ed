# Verified models of the RISC-V VP++ core

Dafny models of the four parts of the RISC-V virtual prototype where a fast mechanism has to agree with a simple
one, and proofs that it does, for every input and every run.

| part | files | what is proved |
|---|---|---|
| Instruction fetch: the dynamic basic block cache (`dbbcache.h`) | `DbbSpec`, `DbbBlock`, `DbbGraph`, `DbbCache`, `DbbRun`, `DbbChanged`, `DbbPatch`, `DbbSwitch`, `DbbDeviation` | the cache behaves like `DBBCacheDummy_T`, which fetches and decodes every instruction anew; where it does not, the exact condition |
| Data accesses: page walk, TLB, load/store cache, bus lock (`mmu.h`, `lscache.h`, `mem.h`, `bus.h`) | `ByteMemory`, `Paging`, `PageWalk`, `MemoryPath`, `LsCache`, `LsRun`, `LsSwitch`, `InstrFetch`, `BusLock` | what a walk finds, from the words in memory; cached accesses behave like walking the page tables for every access; when a hit is right without a fence; LR/SC and AMO are isolated |
| CHERI compressed bounds (`cheri_capability.h`, `cheri_cap_common.h`, `cheri_prelude.cpp`) | `Bits`, `CheriBounds`, `CheriRep`, `CheriSet`, `CheriCap`, `CheriNarrow`, `CheriCapability`, `CheriMemory` | encoding and decoding of bounds, the fast representability check; derivations of capabilities never widen bounds, and keep the tag as long as they stay within them |
| Vector fixed-point arithmetic and strip mining (`v.h`, `sw/rvv-memcpy/main.c`) | `Bits`, `VRounding`, `VAverage`, `VClip`, `VMultiply`, `VSaturate`, `VCarry`, `VMemcpy` | exact-width tricks equal unbounded arithmetic with rounding and clipping; the copy loop copies |

`dafny verify dfyconfig.toml` checks everything. `Wrappers` holds the type of values that may be missing.

## How to read it

**Block cache.** `DbbSpec` is the reference: a program counter, a phase and a clock over a code memory. `DbbCache`
holds the class with the source's state: blocks (pointers become indices), links between blocks, the fast-path
pointer, the scratch block 0, the cycle counter. `Valid()` says that the state is well formed, whatever code there is
in memory, and `Abs()` maps it to the reference. `Exact()` says that every block agrees with memory, which holds as
long as code does not change; `Safe()` says so for the blocks that are current with the last fence; `Aligned()` says
that no recorded pc is wrong. `DbbRun` executes arbitrary sequences of operations on both sides; `StepByStep` says
what a run reads without the reference, each observation from the one before it and the code. Once code has
changed, a run can depart from the reference in two ways (`DbbRun.Diverges`): by a transfer from a block that is out of
date back to its own start (`StaleLoop`), or by a fetch that checks a block in which instruction lengths have changed
so that entries get misplaced (`RepairsInPlace`, `DbbBlock.InPlace`). `DbbChanged` shows what is fetched from a block
after any change of the code, and `DbbPatch` runs in which code changes at any moment. `DbbSwitch` connects the cache
with the page tables: the code that a mode sees, and fetches after the mode has changed. `DbbDeviation` has the places
where the code differs from the reference, each with the exact condition and with a run from reset that gets there.

**Memory path.** `Paging` has the walk as a function, and `PageWalk` the loop of the source and what it finds, stated on
the numbers in memory: a path of entries, each at an address computed from the one before it. A set `tables` of page
table slots stands for the page tables. The hypothesis of the run theorem is that those slots change only by accessed
and dirty bits, or together with a fence, and that the control state which data accesses depend on changes only with
a fence; `LsRun.Legal` states it. `LsSwitch` says what happens otherwise: exactly when a hit is right under changed
control state, and a run from reset in which it is not. `MemoryPath` is the reference, which walks for every access.
The walk enters it as a table of answers (`Bus.walks`) that `Bus.Valid` ties to `Paging.Walk`, and `RealBus` shows that
such a table exists.

**CHERI.** Machine words are integers; a shift is a multiplication or division by a power of two and truncation is a
remainder. Bounds are analysed in units of 2^E: the bounds of a capability are its two mantissas, placed in the
region of 2^14 units around the address. From this follow decoding after encoding, when two addresses have the same
bounds, and the exact set of steps for which the fast check is right.

**Vectors.** Element operations are functions on integers for element widths 8, 16, 32 and 64. The meaning of the four
rounding modes (section 3.8 of the RISC-V "V" extension 1.0) is the predicate `VRounding.RoundsTo`.

Where code and documentation differ, the code is followed. Results of that kind:

- `fastRepCheck` does not truncate `diff - 1` to 14 bits, so that a step over a whole region from its first unit is
  accepted although it moves the bounds. `CheriRep.FastRepCheckExact` says for which steps the answer is right, and
  `CheriCapability.WideningDerivation` derives a tagged capability that lies outside the one it was derived from.
- Every store releases the bus lock, also the one that writes accessed bits during the load of an atomic memory
  operation. Such an operation is not atomic (`BusLock.AmoNotIsolated`), all others are (`BusLock.AmoIsolated`).
- The comment at `vp/src/core/common/dbbcache.h:774` says that the current block is coherent. After a fence it need
  not be (`DbbDeviation.LoopWithoutCheck`, `DbbDeviation.StaleLoopFromReset`).
- The flag that a fetch has failed is cleared only by a fetch from memory, so that the next trap can be reported with
  the address of the failed fetch (`DbbDeviation.TrapPcAfterFailedFetch`, `DbbDeviation.TrapPcFromReset`).
- Repairing a block leaves the pc of an entry alone whose word did not change, also if it has moved
  (`DbbBlock.RepairedPcs`, `DbbDeviation.MisplacedFromReset`).
- Neither the load/store cache nor the block cache looks at the privilege mode, and only a fence makes them look at the
  page tables again (`LsSwitch.SwitchNeedsFence`, `DbbSwitch.ModeNeedsFence`).

## Model

| member | source | states |
|---|---|---|
| DbbRun.RunFromReset | vp/src/core/common/dbbcache.h:892-1345 | with fixed code, every legal run of fast and medium fetches, branches, jumps, fences, traps, returns, forced slow paths and enabling or disabling reads the same instructions, labels, link values, pcs, faults and cycle counts as the uncached fetch unit; each follows from what was read before: a fetch at the next pc gives the word there, its time and, as new next pc, that pc plus 2 or 4 modulo 2^XLEN, a branch leads to the current pc plus its offset modulo 2^XLEN, a jump, trap or return to its target |
| DbbRun.RefExplained | vp/src/core/common/dbbcache.h:186-319 | the uncached fetch unit obeys these rules in every run |
| DbbRun.StaysInRange | vp/src/core/common/dbbcache.h:186-319 | by these rules, from an entry point of XLEN bits on every pc that can be read has XLEN bits, as long as the targets of jumps have |
| DbbRun.LegalIff | vp/src/core/common/dbbcache.h:186-319 | an operation is legal exactly if what it needs can be read: the next pc for a fetch, the current instruction for branches, jumps, returns and fences |
| DbbSpec.AddWraps | vp/src/core/common/dbbcache.h:189-221 | adding a distance below 2^XLEN to an address is addition modulo 2^32 on RV32 and modulo 2^64 otherwise |
| DbbRun.RunAfterFence | vp/src/core/common/dbbcache.h:864-877 | after any history that misplaced no entry, any change of the code and a fence: what is read is a prefix of what an uncached fetch unit reads on the new code, and all of it unless the run meets a transfer from a stale block to its own start or a check that misplaces an entry; if lengths did not change only the former is possible, if no recorded word changed neither |
| DbbPatch.RunWithPatches | vp/src/core/common/dbbcache.h:892-1345 | from reset, with nothing assumed of the state: a run on fixed code, then anything, with code changing at any moment and any number of times, then a fence: whatever was executed in between, from the fence on what is read is what an uncached fetch unit reads on the code then in memory, up to the same two departures |
| DbbPatch.Drive | vp/src/core/common/dbbcache.h:1114-1272 | whatever is executed while code changes, no recorded pc becomes wrong up to the first check that misplaces an entry, and never if lengths are kept |
| DbbPatch.PermittedIff | vp/src/core/common/dbbcache.h:186-319 | what is executed meanwhile is anything that is legal in the state the cache stands for |
| DbbRun.Run | vp/src/core/common/dbbcache.h:1096-1272 | a run stops early only where it may depart from the reference, its observations are a prefix of the reference run, and the state at its end is well formed (blocks with room and a terminal, entries decoded and at consecutive pcs, links, block map and trap cache leading to blocks that start at the target) and stands for the reference state |
| DbbRun.Move | vp/src/core/common/dbbcache.h:823-1062 | every branch, jump, trap and return leads to its target, keeps all cycles, and leads to a cached block exactly if the cache is enabled or there is a link |
| DbbRun.FetchForcedSlow | vp/src/core/common/dbbcache.h:1064-1087 | after the slow path was forced the first fast fetch aborts, also if a branch, jump, trap or return to whatever block lies in between, and nothing else changes |
| DbbRun.SwitchKeepsSafe | vp/src/core/common/dbbcache.h:762-804 | any block switch keeps current blocks, and a block running on the fast path, equal to memory, unless it leads from an unchecked block that is out of date back to its start |
| DbbRun.KnownInPlace | vp/src/core/common/dbbcache.h:1182-1218 | if no recorded word or no instruction length has changed, checking the current block misplaces no entry |
| DbbChanged.ChangedCodeIsFetched | vp/src/core/common/dbbcache.h:1182-1259 | any code is replaced by any other, lengths included, a fence follows and another recorded block is entered: as far as instructions can be fetched, the k-th fetch, fast or not, delivers the decoding of what memory holds at the k-th address from the start of the block; if a word of it changed, no link of it is left |
| DbbSwitch.FetchUnfenced | vp/src/core/common/dbbcache.h:1096-1145 | the code has changed to anything without a fence: a fetch that the cache serves delivers the recorded entry, and that is what an uncached fetch delivers if and only if the entry lies at the pc and agrees with the new code |
| DbbSwitch.LoadSeen | vp/src/core/common/mem.h:234-263 | the code that a mode sees through its page tables is what load_instr loads |
| DbbSwitch.ModeNeedsFence | vp/src/core/common/dbbcache.h:1039-1056 | from reset, code that was run in machine mode is run as trap handler in supervisor mode, where fetching it would fault |
| DbbDeviation.LoopWithoutCheck | vp/src/core/common/dbbcache.h:773-782 | for every branch, jump and trap, at every stage, from an unchecked block to its own start: what is read up to the end of the block are the recorded instructions, and that is what the uncached fetch unit reads if and only if the block agrees with memory and its entries lie back to back |
| DbbDeviation.RecordedIff | vp/src/core/common/dbbcache.h:1096-1104 | running through recorded entries on the fast path reads what the uncached fetch unit reads if and only if the entries agree with memory and lie back to back |
| DbbDeviation.StaleLoopFromReset | vp/src/core/common/dbbcache.h:773-782 | a run from reset in which a loop jumps back after its first instruction was replaced and a fence was executed, and runs the old instruction |
| DbbDeviation.TrapPcAfterFailedFetch | vp/src/core/common/dbbcache.h:1283-1294 | after a failed fetch, for every state, handler and path: if the first instruction of the handler traps as well, the reported pc is the handler's if and only if that instruction was fetched from memory or the fetch had failed at the same address |
| DbbDeviation.TrapPcInHandler | vp/src/core/common/dbbcache.h:1283-1294 | the same after any number of fetches, branches, jumps and fences of the handler: the reported pc is right if and only if some fetch since the failure went to memory or the two addresses agree |
| DbbDeviation.TrapPcFromReset | vp/src/core/common/dbbcache.h:668-682 | a run from reset in which the address of the failed fetch is reported instead |
| DbbDeviation.MisplacedFromReset | vp/src/core/common/dbbcache.h:1207-1217 | a run from reset in which an instruction is read from address 2 and its pc is reported as 4, because the one before it got shorter |
| DbbCache.DBBCache.constructor | vp/src/core/common/dbbcache.h:892-926 | the initial state is well formed, stands at the entry point with a clock of 0, and every block agrees with memory |
| DbbCache.DBBCache.SwitchBlockDummy | vp/src/core/common/dbbcache.h:741-760 | execution continues uncached at pc; the cycles of the block that is left are not lost |
| DbbCache.DBBCache.SwitchBlock | vp/src/core/common/dbbcache.h:762-804 | execution continues at the start of the block, cycles kept; the fast path is entered exactly under the stated rule, and a forced slow path ends exactly when another block is entered |
| DbbCache.DBBCache.FindCreateSwitchBlock | vp/src/core/common/dbbcache.h:806-821 | execution continues at pc in a block that starts there, created if there was none |
| DbbCache.DBBCache.BranchTaken | vp/src/core/common/dbbcache.h:823-862 | execution continues at the current instruction's pc plus the offset, modulo 2^XLEN, with or without a valid link, in every path of execution; in a cached block exactly if the cache is enabled or the entry is linked |
| DbbCache.DBBCache.JumpDyn | vp/src/core/common/dbbcache.h:992-1009 | execution continues at the target, with or without a cached link; in a cached block exactly if the cache is enabled or there is a link |
| DbbCache.DBBCache.EnterTrap | vp/src/core/common/dbbcache.h:1039-1056 | the same for the handler; the saved pc of a failed fetch stays |
| DbbCache.DBBCache.RetTrap | vp/src/core/common/dbbcache.h:1058-1062 | execution continues uncached at the return address |
| DbbCache.DBBCache.LinkAddress | vp/src/core/common/dbbcache.h:976-984 | the link is the current pc plus 2 or 4 modulo 2^XLEN |
| DbbCache.DBBCache.Fence | vp/src/core/common/dbbcache.h:864-877 | position and clock stay, and no block that differs from memory counts as current any more |
| DbbCache.DBBCache.ForceSlowPath | vp/src/core/common/dbbcache.h:1064-1087 | at any moment, also before the first instruction of a block, leaving the fast path changes neither position nor clock; the request for the slow path is recorded |
| DbbCache.DBBCache.Enable | vp/src/core/common/dbbcache.h:928-956 | enabling or disabling changes neither position nor clock, and keeps all blocks; disabling removes every link by which the next branch, jump or trap could enter a cached block |
| DbbCache.DBBCache.FetchDecode | vp/src/core/common/dbbcache.h:1114-1272 | delivers what an uncached fetch at pc delivers, or faults exactly if it does; the next pc is pc plus 2 or 4 modulo 2^XLEN, and the time of the instruction is added; for any code, a block that has to be checked is brought up to date, and the flag of a failed fetch is changed exactly by fetches from memory |
| DbbCache.DBBCache.FetchUncached | vp/src/core/common/dbbcache.h:1147-1163 | the same for the scratch block |
| DbbCache.DBBCache.FetchAppend | vp/src/core/common/dbbcache.h:1170-1178 | the same at the end of a block, which grows by that instruction |
| DbbCache.DBBCache.FetchRepair | vp/src/core/common/dbbcache.h:1182-1259 | the same in a block that is not current, for any code, and for faults before, at and after the wanted instruction |
| DbbCache.DBBCache.FetchDecodeFast | vp/src/core/common/dbbcache.h:1096-1104 | the fast path delivers the next recorded instruction, or the abort label exactly at the end of the block or if it is off |
| DbbCache.DBBCache.AbortFetchDecodeFast | vp/src/core/common/dbbcache.h:1106-1112 | undoes a fast fetch that ran off the block |
| DbbCache.DBBCache.GetLastPcBeforeCallback | vp/src/core/common/dbbcache.h:1274-1281 | pc of the instruction in execution |
| DbbCache.DBBCache.GetPcMaybeAfterCallback | vp/src/core/common/dbbcache.h:1306-1319 | pc of the next instruction, in every path of execution and also right after a block switch; during an instruction it is the current pc plus 2 or 4 modulo 2^XLEN |
| DbbBlock.ClockedSum | vp/src/core/common/dbbcache.h:700-717 | the cycle count in an entry is the time of all instructions of the block before it |
| DbbBlock.Find | vp/src/core/common/dbbcache.h:455-462 | a block is found only for a recorded pc, and is the one recorded for it; a valid pc not found is not recorded |
| DbbBlock.AppendEntry | vp/src/core/common/dbbcache.h:719-739 | makes room in a full block; the fetched word becomes the last entry before the terminal, and a fetch that traps leaves the entries as they were |
| DbbBlock.Repair | vp/src/core/common/dbbcache.h:1186-1218 | for any code, the repaired entries are the decoding of memory along the path of execution from the start address, up to the first fetch that traps; if any changed, no link survives |
| DbbBlock.RepairedPcs | vp/src/core/common/dbbcache.h:1186-1218 | for any code, the recorded pcs of a repaired block are the addresses fetched from if and only if the entries whose word did not change are still where they were |
| DbbBlock.RepairMisplaces | vp/src/core/common/dbbcache.h:1207-1217 | a block of two instructions, the first of which gets shorter: the pc of the second is wrong after the repair |
| DbbBlock.RepairedChained | vp/src/core/common/dbbcache.h:1186-1218 | wherever the repair stops, the entries lie back to back afterwards if and only if those it did not rewrite lie on the path |
| DbbBlock.RepairedClocked | vp/src/core/common/dbbcache.h:700-717 | for any code, the cycle counts in a repaired block are right if and only if, before every entry whose word did not change, the instructions of the block take as long as before |
| DbbBlock.LaidOutInPlace | vp/src/core/common/dbbcache.h:1186-1218 | if lengths did not change, no entry is misplaced |
| DbbBlock.RepairOfFresh | vp/src/core/common/dbbcache.h:1186-1218 | a block that agrees with memory is not changed |
| DbbBlock.RevalidateBlock | vp/src/core/common/dbbcache.h:1184-1259 | for any code: where the word of the wanted entry comes from, when it traps, when the block becomes current, and exactly when no recorded pc becomes wrong |
| DbbGraph.FindCreate | vp/src/core/common/dbbcache.h:806-821 | the block map sends pc to a block that starts there, and all other blocks are unchanged |
| DbbGraph.LinkStatic | vp/src/core/common/dbbcache.h:852-858 | linking a branch to a block that starts at its target keeps the block graph well formed |
| DbbGraph.LinkDyn | vp/src/core/common/dbbcache.h:1002-1005 | the same for dynamic jumps |
| DbbGraph.UnlinkAll | vp/src/core/common/dbbcache.h:950-955 | no link leaves the current block, the scratch block or the trap cache |
| DbbGraph.FetchAddEntry | vp/src/core/common/dbbcache.h:719-739 | on a fault only the saved pc changes, otherwise the block ends with the decoded word at pc |
| DbbGraph.FetchChecked | vp/src/core/common/dbbcache.h:1184-1259 | for any code, the wanted entry holds the word on the path of execution; if no recorded pc becomes wrong it is the word at pc, a fully checked block agrees with memory, and an up-to-date block stays as it is |
| PageWalk.WalkTables | vp/src/core/common/mmu.h:172-258 | the walk succeeds if and only if there is a path: entries at base + size * index, with index = va / 2^(12 + i * bits) % 2^bits, each but the last a pointer to the next base pte / 2^10 * 2^12, the last a leaf whose rights cover the access, aligned to its level; the physical address is then pte / 2^10 * 2^12 + va % 2^(12 + i * bits) modulo 2^64, and that entry with the missing accessed and dirty bits set is all that changes in memory |
| PageWalk.UseLeaf | vp/src/core/common/mmu.h:210-258 | exactly when a leaf entry serves the access, in bits of the number in memory, and the address and memory it then gives |
| PageWalk.Check | vp/src/core/common/mmu.h:210-231 | the order of the permission tests does not matter: access is granted exactly if the entry allows it |
| PageWalk.WalkMeans | vp/src/core/common/mmu.h:172-258 | the same of the walk as a function |
| PageWalk.EntryIs | vp/src/core/common/mmu.h:12-56 | with pte the little-endian number of 4 or 8 bytes at the slot, the page number is pte / 0x400, and V, R, W, X, U, A and D are its bits 0 to 4, 6 and 7 |
| PageWalk.ExtensionIff | vp/src/core/common/mmu.h:163-170 | for every scheme and register width, an address is translated exactly if its bits from the highest translated one up are all equal |
| PageWalk.Sv32Address | vp/src/core/common/mmu.h:183-256 | the equations for Sv32 written out: slots root + 4 * (va / 2^22 % 2^10) and pte / 2^10 * 2^12 + 4 * (va / 2^12 % 2^10), and the physical address for pages and superpages |
| PageWalk.Sv39Address | vp/src/core/common/mmu.h:183-256 | the same for the three levels of Sv39 |
| Paging.WalkStable | vp/src/core/common/mmu.h:172-258 | setting accessed and dirty bits anywhere in the page tables changes no frame for any page, access type or mode, and causes or removes no fault except those for missing bits |
| Paging.WalkAgain | vp/src/core/common/mmu.h:238-250 | a second walk finds the same frame and has nothing to write |
| Paging.MarkAges | vp/src/core/common/mmu.h:238-250 | the 32-bit write-back changes only flag bits of one entry, because slots are aligned and disjoint |
| Paging.StoreImpliesLoad | vp/src/core/common/mmu.h:212-250 | a page that can be stored to without write-back can be loaded from without write-back, at the same frame |
| Paging.MappedMeans | vp/src/core/common/mmu.h:202-236 | a page is mapped only by a leaf entry that allows the access |
| Paging.CanonicalIff | vp/src/core/common/mmu.h:163-170 | on 64-bit cores exactly the sign-extended addresses are translated |
| Paging.SuperpageContiguous | vp/src/core/common/mmu.h:252-257 | all pages in the span of a leaf are mapped by it, with the same permissions, at frames as far apart as the pages |
| Paging.FrameBits | vp/src/core/common/mmu.h:252-257 | for every scheme and level, a frame has the upper bits of the entry and the lower bits of the page; bits beyond 2^64 are dropped |
| MemoryPath.TranslateMeans | vp/src/core/common/mmu.h:108-141 | in machine mode and without paging an address is physical; otherwise there is a physical address exactly if there is such a path for the mode in question, MPP for loads and stores under MPRV, and it is the one at its end |
| MemoryPath.LoadEffects | vp/src/core/common/mem.h:149-210 | a load reads directly accessible memory, or makes exactly one bus transaction with the physical address and size, whose response is the value or the trap; memory stays, and the lock is only released if the translation had to write |
| MemoryPath.StoreEffects | vp/src/core/common/mem.h:182-215 | a store changes exactly its bytes in directly accessible memory, or makes exactly one bus transaction with the physical address and the bytes, and then leaves memory alone; the lock is released unless the store fails |
| LsCache.V2P | vp/src/core/common/mmu.h:108-141 | translation through the TLB equals a fresh walk, in address, fault, memory and lock, and keeps the TLB right |
| LsCache.LSCache.Load | vp/src/core/common/lscache.h:270-286 | value, trap, memory, bus transactions and lock are those of an uncached load, for hits and misses, locked or not |
| LsCache.LSCache.Store | vp/src/core/common/lscache.h:291-307 | the same for stores |
| LsCache.LSCache.StoreServed | vp/src/core/common/lscache.h:242-251 | a store through a cached page is the store that walking would have done |
| LsCache.LSCache.UncachedLoad | vp/src/core/common/mem.h:149-210 | the same without the cache, and afterwards the page serves further loads |
| LsCache.LSCache.UncachedStore | vp/src/core/common/mem.h:182-215 | the same for stores |
| LsCache.LSCache.TryAdd | vp/src/core/common/lscache.h:224-265 | adding the page of a completed access keeps the cache right; a page added by a store also serves loads |
| LsCache.LSCache.Enable | vp/src/core/common/lscache.h:323-338 | disabling empties the cache |
| LsCache.LSCache.FenceVma | vp/src/core/common/lscache.h:354-358 | both caches are right for whatever control state and page tables there are now |
| LsCache.LSCache.Switch | vp/src/core/common/mmu.h:109-120 | without a fence, caches stay right if the effective mode of data accesses stays |
| LsCache.StoreHitsPermitted | vp/src/core/common/lscache.h:242-251 | a store that hits in the cache or in the TLB goes to a page whose leaf entry permits it and has both bits set |
| LsRun.RunFromReset | vp/src/core/common/lscache.h:266-358 | every legal run of instruction fetches, loads, stores, fences, context switches, enabling and disabling, other harts' activity and lock changes has the outcomes, bus transactions, memory and lock of walking for every access |
| LsRun.LegalIff | vp/src/core/common/lscache.h:266-358 | every fetch and load is legal, a store exactly if it does not write into a page table entry, and a change of privilege without fence exactly if loads and stores keep their mode |
| LsSwitch.LoadHitIff | vp/src/core/common/lscache.h:231-240 | for any control state and any frame a hit may use: the hit reads what an uncached load reads, whatever memory holds, if and only if the page now translates to that frame with nothing to mark |
| LsSwitch.StoreHitIff | vp/src/core/common/lscache.h:242-251 | the same for stores, whatever is stored |
| LsSwitch.LoadAfterSwitch | vp/src/core/common/lscache.h:270-286 | what a load reads that hits after any change of the control state without a fence, and exactly when that is right |
| LsSwitch.StoreAfterSwitch | vp/src/core/common/lscache.h:291-307 | the same for a store |
| LsSwitch.SwitchNeedsFence | vp/src/core/common/lscache.h:231-251 | from reset, a page cached by a store in machine mode serves a load and a store in supervisor mode that both trap without the cache |
| InstrFetch.LoadInstr | vp/src/core/common/mem.h:234-263 | four bytes, each translated on its own, in either order of the halves, across pages and at the end of the address space; or the trap of the half that fails, the first one or, if that one succeeds, the second one |
| BusLock.ConditionalIff | vp/src/core/common/mem.h:289-302 | in every interleaving a store-conditional succeeds if and only if the hart's last step, plain loads aside, was a load-reserved of that address and no entry was marked since; then memory changes by its mark, if any, and its value at its address and nowhere else, and the lock is free; a failed one leaves memory alone and the hart without the lock |
| BusLock.ConditionalIsolated | vp/src/core/common/mem.h:283-302 | since the matching load-reserved, no hart has written anywhere, so that the store replaces the value that was loaded |
| BusLock.AmoIsolated | vp/src/core/common/mem.h:265-282 | both halves of an atomic operation see the same memory, unless its load marked a page table entry: the operation replaces the value it loaded and changes nothing else but an entry that its store marks |
| BusLock.AmoNotIsolated | vp/src/core/common/mem.h:182-205 | in that case any other hart can store in between, after any run |
| BusLock.HeldQuiet | vp/src/platform/common/bus.h:158-192 | while a hart holds the lock nobody writes |
| BusLock.MemoryIs | vp/src/core/common/mem.h:182-302 | in every interleaving every address holds what the steps wrote to it last: stores, second halves of atomic operations, store-conditionals of a reserved address, and marked entries |
| BusLock.OwnerIff | vp/src/platform/common/bus.h:158-192 | a hart has the lock exactly if it has something reserved or is within an atomic operation whose load marked no entry |
| BusLock.EnabledIff | vp/src/platform/common/bus.h:158-192 | a step can be taken exactly if no other hart has the lock, or it is a store-conditional or unlock, and if the halves of atomic operations match |
| CheriBounds.GetBoundsIsRegion | vp/src/core/common_cheriv9/cheri_capability.h:194-226 | decoding places both mantissas in the region around the address, for every exponent and with 64-bit wrap-around |
| CheriBounds.SameBoundsIff | vp/src/core/common_cheriv9/cheri_capability.h:194-226 | two regions give the same bounds if and only if they are a multiple of the address space apart |
| CheriRep.FastRepInUnits | vp/src/core/common_cheriv9/cheri_capability.h:416-437 | the check compares the step with the room above and below the address in its region |
| CheriRep.FastRepCheckExact | vp/src/core/common_cheriv9/cheri_capability.h:416-437 | a positive answer means that the bounds are kept if and only if the step does not overrun the region from its first unit; all exponents, with wrap-around |
| CheriRep.FastRepCheckTooWeak | vp/src/core/common_cheriv9/cheri_capability.h:429-431 | a step that is accepted and moves the bounds |
| CheriRep.ShortStep | vp/src/core/common_cheriv9/cheri_capability.h:416-437 | a step of less than a region keeps the bounds if and only if it ends in the same region |
| CheriSet.SetBoundsEncodes | vp/src/core/common_cheriv9/cheri_capability.h:229-287 | which granule is chosen: the rounded length takes 2^9 to 2^10 granules, also after the exponent was raised |
| CheriSet.SetThenGet | vp/src/core/common_cheriv9/cheri_capability.h:229-287 | base rounded down and top rounded up to the granule, at any address within these bounds; less than 1/256 of the length is added on each side |
| CheriSet.ExactIff | vp/src/core/common_cheriv9/cheri_capability.h:285-286 | the result is true if and only if decoding returns the request |
| CheriCap.CheckSoundWithin | vp/src/core/common_cheriv9/cheri_capability.h:416-437 | from an address within bounds, an accepted step keeps the bounds |
| CheriCap.CheckAcceptsWithin | vp/src/core/common_cheriv9/cheri_capability.h:416-437 | steps between addresses within bounds are accepted |
| CheriCap.RepresentableLengthLeast | vp/src/core/common_cheriv9/cheri_cap_common.h:7-18 | the length is the least multiple of the granule that covers the request; it wraps to 0 exactly for lengths above the mask |
| CheriCap.RepresentableLengthExact | vp/src/core/common_cheriv9/cheri_cap_common.h:7-18 | used at an aligned base, that length is encoded exactly |
| CheriNarrow.Narrower | vp/src/core/common_cheriv9/cheri_capability.h:229-287 | a request within the bounds of a capability stays within them after rounding |
| CheriCapability.DeriveFromRoot | vp/src/core/rv64_cheriv9/iss_ctemplate.cpp:7318-7410 | along every derivation from the default capability, what every operation does: the new address modulo 2^64, the new bounds, exactly when the tag survives, and that all else stays; without such an overrun, a capability that still has its tag lies within the bounds of every capability it was derived through; if no operation asks for anything outside the bounds, the tag is never lost |
| CheriCapability.Derive | vp/src/core/rv64_cheriv9/iss_ctemplate.cpp:7318-7410 | the same from any capability whose bounds were set by setCapBounds; the tag is kept from any usable one |
| CheriCapability.ProperKeepsTag | vp/src/core/rv64_cheriv9/iss_ctemplate.cpp:7318-7410 | an operation on a tagged and unsealed capability within bounds that asks for nothing outside them keeps the tag, and the address within bounds that do not grow |
| CheriCapability.Capability.Execute | vp/src/core/rv64_cheriv9/iss_ctemplate.cpp:7318-7410 | what one operation does: address, bounds, tag and the fields that stay |
| CheriCapability.WideningDerivation | vp/src/core/common_cheriv9/cheri_capability.h:416-437 | with one such overrun, four instructions lead from the default capability to a tagged one that lies outside the bounds it was derived from |
| CheriCapability.AcceptedKeeps | vp/src/core/common_cheriv9/cheri_capability.h:397-414 | a capability within bounds that keeps its tag when its offset changes keeps its bounds |
| CheriCapability.WithinAccepted | vp/src/core/common_cheriv9/cheri_capability.h:397-414 | and it keeps its tag if the new address is within bounds |
| CheriCapability.Capability.constructor | vp/src/core/common_cheriv9/cheri_capability.h:488-490 | the default capability is the encoding of the whole address space |
| CheriCapability.Capability.SetCapBounds | vp/src/core/common_cheriv9/cheri_capability.h:229-287 | the new bounds, the address and the result; the tag stays |
| CheriCapability.Capability.SetBoundsInstr | vp/src/core/rv64_cheriv9/iss_ctemplate.cpp:7360-7395 | the bounds are those of length bytes from the address on, rounded; exactly when the tag survives, and that the bounds do not grow then; all else stays |
| CheriCapability.Capability.SetOffsetInstr | vp/src/core/rv64_cheriv9/iss_ctemplate.cpp:7318-7326 | the same; bounds do not grow unless the step is an overrun |
| CheriCapability.Capability.IncOffsetInstr | vp/src/core/rv64_cheriv9/iss_ctemplate.cpp:7344-7359 | the same |
| CheriCapability.Capability.SetAddrInstr | vp/src/core/rv64_cheriv9/iss_ctemplate.cpp:7327-7336 | the tag survives if and only if it was set on an unsealed capability and the bounds stay |
| CheriMemory.LoadThenStore | vp/src/core/rv64_cheriv9/cheri_prelude.cpp:5-18 | every packed word is recovered when its capability is packed again |
| CheriMemory.StoreThenLoad | vp/src/core/common_cheriv9/cheri_capability.h:455-477 | bounds that setCapBounds produced survive packing, although two bits of T are left out |
| VRounding.RoundMeans | vp/src/core/common/v.h:369-393 | rounding by bits is rounding to nearest up, to nearest even, down or to odd |
| VAverage.AaddExact | vp/src/core/common/v.h:1105-1128 | the exact sum of signed or unsigned elements, halved and rounded, for every width and mode |
| VAverage.AsubExact | vp/src/core/common/v.h:1130-1154 | the exact difference, halved and rounded |
| VClip.ShiftRightClipExact | vp/src/core/common/v.h:1171-1195 | the exact value shifted right with rounding and then clipped; saturation is reported if and only if clipping changes it; shift amounts count modulo the width |
| VClip.ClampIs | vp/src/core/common/v.h:484-511 | the nearest representable value, and whether it differs |
| VMultiply.WordsExact | vp/src/core/common/v.h:1383-1406 | the two words from four products of halves are the exact 128-bit product, signed, mixed and unsigned |
| VMultiply.MultiplyExact | vp/src/core/common/v.h:1378-1416 | bits shift+63 to shift of the product for shifts 0 to 64, and with rounding for shifts up to 63 |
| VMultiply.SmulExact | vp/src/core/common/v.h:1156-1169 | the exact product shifted with rounding and clipped; saturation if and only if clipping changes it |
| VSaturate.SaddExact | vp/src/core/common/v.h:1418-1436 | the exact sum of signed elements, clipped; saturation if and only if clipping changes it |
| VSaturate.SadduExact | vp/src/core/common/v.h:1438-1443 | the same for unsigned elements |
| VSaturate.SsubExact | vp/src/core/common/v.h:1462-1487 | the same for differences of signed elements |
| VSaturate.SsubuExact | vp/src/core/common/v.h:1489-1497 | the same for differences of unsigned elements |
| VCarry.AdderExact | vp/src/core/common/v.h:1197-1225 | element and carry out are the exact sum of elements and carry in |
| VCarry.SubtractorExact | vp/src/core/common/v.h:1227-1253 | element and borrow out are the exact difference |
| VCarry.AddWords | vp/src/core/common/v.h:1197-1225 | chaining over any number of words is exact addition of long numbers |
| VCarry.SubWords | vp/src/core/common/v.h:1227-1253 | and exact subtraction |
| VMemcpy.LegalVlmax | vp/src/core/common/v.h:316-350 | a configuration without vill has 8 to 512 elements that exactly fill LMUL registers |
| VMemcpy.GroupFits | vp/src/core/common/v.h:642-679 | the elements fit the register group |
| VMemcpy.VillIff | vp/src/core/common/v.h:316-350 | vill, in integers: a reserved bit, SEW above 64, vlmul 4, or SEW / LMUL above 64 |
| VMemcpy.VlmaxIs | vp/src/core/common/v.h:316-350 | VLMAX is 2 to the power of 9 plus the signed vlmul less vsew + 3 |
| VMemcpy.OwnWidthAcceptable | vp/src/core/common/v.h:642-664 | every legal configuration serves elements of its own width at exactly the registers that are a multiple of the group |
| VMemcpy.VExtension.AcceptsIff | vp/src/core/common/v.h:642-768 | an access is accepted if and only if vill is clear and, with e = log2(8 * eb) - (vsew + 3) + signed vlmul, -3 <= e <= 3, rd is a multiple of 2^max(e, 0) and the group ends within the 32 registers |
| VMemcpy.VExtension.SetVl | vp/src/core/common/v.h:316-360 | the new length for every form of the instruction; with vill it is 0; it is positive if elements were asked for |
| VMemcpy.VExtension.IndexIs | vp/src/core/common/v.h:703-718 | elements of any width lie one after the other in the register file, so that no two share a byte |
| VMemcpy.VExtension.Load | vp/src/core/common/v.h:720-841 | accepted exactly under that condition; then exactly the bytes of the elements below vl change, to the bytes of memory from base on; otherwise nothing changes |
| VMemcpy.VExtension.Store | vp/src/core/common/v.h:720-841 | accepted exactly under that condition; then exactly the bytes of vl elements are written to memory from base on; otherwise nothing |
| VMemcpy.CopyStrip | sw/rvv-memcpy/main.c:18-33 | one pass copies the smaller of 512 and the remaining length |
| VMemcpy.Memcpy | sw/rvv-memcpy/main.c:15-34 | terminates, copies exactly len bytes between areas that do not overlap, and changes no other byte |

## Left out

- Decode tables (`instr.cpp`): decoding is an arbitrary function from words to instructions, with a branch offset per instruction word.
- Block cache: pointers and `realloc` are indices and sequences; overflow of the index, cycle and coherence counters, statistics and re-initialisation are not modelled.
- Block cache: the misaligned-target trap of `branch_taken_sjump`, because `has_compressed` is derived from the whole extension word; `INVALID_PC` (all ones, odd) as jump target; an operation whose label equals the abort label.
- DbbRun.RunAfterFence: the history before the change has misplaced no entry; once an entry has been misplaced, pcs read from that block are wrong.
- DbbRun.RunAfterFence: clocks are compared only as long as code does not change; `DbbBlock.RepairedClocked` says when the counts in a block survive a change.
- Block cache and memory path: blocks, TLB and page tables are updated as values, which the methods of the two classes then store; aliasing of host pointers is not modelled.
- Memory path: Sv64 (a negative shift count), physical memory protection, time, and faults of page table accesses; page tables are in directly accessible memory.
- Memory path: memory ranges are whole pages, switching DMI off, and the conversion of loaded bytes to registers, which is the same with and without the cache.
- LsSwitch.LoadHitIff: the bytes accessed are not part of a page table, and there is at least one; the same for LsSwitch.StoreHitIff.
- LsRun.RunFromReset: stores to page tables, and changes of satp, SUM, MXR or the effective mode of data accesses, occur only together with a fence.
- BusLock.ConditionalIff: an access is one step; bus transactions during which SystemC switches to another hart, and traps between the halves of an atomic operation, are not modelled.
- CHERI: permissions, sealing and unsealing, C_BUILD_CAP, C_SET_HIGH, and the packing of the remaining fields into 128 bits, which are fixed bit positions.
- CheriCapability.DeriveFromRoot: steps for which the fast check is wrong are excluded, because bounds do move there.
- Vector: masks, segments, strided, indexed, whole-register and fault-only-first accesses, and floating point.
- VClip.ShiftRightClipExact: the shifted operand is an element read from a register, as in every form of the instruction.
- VSaturate.SsubuExact: the first operand is an element read from a register, as in every form of the instruction.
- VMultiply.MultiplyExact: an unsigned first with a signed second operand, which no caller uses.
- VMemcpy.Memcpy: the areas lie below the end of the address space, and accesses do not trap.
- Everything around these parts: peripherals, SystemC scheduling, the remaining instructions, traps and CSRs.
