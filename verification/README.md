# HyperEnclave exception and edge-call benchmarks: a verified model

Two parts of the repository are modelled and their properties proved.

**Fault handling inside a P-Enclave** (`server/exception/exception_p_enclave/Enclave`). The enclave owns
its page tables and its interrupt descriptor table. `mprotect` walks four levels of tables through
direct-map pointers, rewrites leaf entries and flushes them from the TLB. A fault goes through a gate, a
stub and the common entry code to `exception_handler`, which repairs the page, skips the `ud2`, or counts
an interrupt. The model keeps raw memory as words by physical address, so that a store could in
principle hit any table. The shape that rules this out is a hypothesis about the tables
(`PageTable.TreeShaped`: no table is reached twice, all tables lie in the direct map; large pages are
allowed anywhere below the root table), and every operation is proved to keep it.

**Edge-call accounting** (`server/edge-calls`, `server/linux-sgx/eenter-eexit-stats.patch`). The
EENTER/EEXIT counters are a concurrent protocol of two atomic additions per crossing; nested ECALLs and
OCALLs make balanced traces of crossings; `bench_stats` reports order statistics and moments of a sample.

| file | contents |
|---|---|
| `Words.dfy` | 64-bit words, bitwise OR |
| `PageEntry.dfy` | page-table entries and their rewriting |
| `PageTable.dfy` | the walk, the tree shape, the map from pages to leaf entries |
| `Translation.dfy` | the hardware's walk beside the software's |
| `Protection.dfy` | the memory effect of `mprotect` and the abstract update it refines |
| `Paging.dfy` | class `Mmu`: pointers, `get_entry`, `mprotect`, TLB fills and evictions at any moment |
| `Repair.dfy` | what a page-fault repair achieves, once or repeatedly; what is left in the TLB |
| `Dump.dfy`, `Enumeration.dfy` | `dump_inner`, its agreement with the walk, its cost |
| `Trap.dfy` | stubs, common entry, hardware delivery, nested traps, class `Processor` |
| `Gates.dfy` | gates, `lidt`, dispatch |
| `Accounting.dfy`, `Enclave.dfy` | handler, counters, and the whole run, class `Machine` |
| `Example.dfy` | concrete memories: one that meets the hypotheses of the whole-run theorems, and the inputs on which repair, flush and dump fall short |
| `Counters.dfy` | the statistics counters under any interleaving |
| `EdgeCalls.dfy` | call trees, crossings, `bench_main`, class `Session` |
| `Statistics.dfy`, `BenchStats.dfy` | inequalities of a sample, `bench_stats` |

Nondeterminism stands for what the code does not decide: `Mmu.Hardware` fills and evicts TLB entries
between any two steps of `mprotect`, `Machine.Interrupts` delivers any number of interrupts before any
access, and `Processor.HandlerCode` lets the handler leave arbitrary registers and arbitrary words below
its frame. `Trap.Moment` lets any number of traps be taken before any instruction of the entry and exit
code. A schedule in `Counters` is an arbitrary sequence of thread choices and time stamps.

## Findings

- A leaf slot is not enough for a faulting write to succeed after the handler returns. The retry succeeds
  exactly when, besides, the three entries above the leaf allow writes and the page is not the last one of
  the address space, where `start + len` wraps to 0 and `mprotect` does nothing (`Repair.FaultProgress`;
  failing inputs in `Example.ReadOnlyRoot` and `Example.LastPageExample`). Otherwise `mprotect` still reports 0
  and the fault repeats, counted each time, over tables that no longer change
  (`Enclave.Machine.RefusedWrite`). A large page makes the handler abort (`Repair.RepairAborts`; an input in
  `Example.LargePageExample`).
- `invlpg` ignores non-canonical addresses while `get_entry` ignores bits 48 to 63, so protecting through
  a non-canonical address can leave a stale translation. `mprotect_page` leaves every coherent TLB coherent
  exactly when the address is canonical, or there is no leaf slot, or the rewrite stores a present entry
  back unchanged or leaves an absent one absent (`Repair.FlushExact`; a failing input in
  `Example.StaleExample`).
- The rewrite keeps the frame of every entry exactly when the flags carry no address bits
  (`PageEntry.RewriteKeepsFrame`; a frame lost in `Example.FrameLost`).
- The stubs expect a CPU error code for vectors 8, 10 to 14 and 17 only. The trap path is transparent for a
  vector exactly when the CPU agrees, so on processors that push a code for 21, 29 or 30 those vectors
  return to the error code as an address (`Trap.TransparentVectors`, `Trap.MismatchReturnsElsewhere`).
- `next_table` gives NULL for a table at physical address 2^47, which the walk takes for absent while the
  hardware goes on; it does so for that address only (`Paging.NullTableExact`; a page mapped through it in
  `Example.HighTableExample`).
- `dump_inner` follows an entry without looking at its present bit, `get_entry` does not. At each level the
  dump lists exactly the entries that walks meet if and only if no such stray entry on a walk has a nonzero
  entry of that level behind it (`Enumeration.DumpEnumerates`; a disagreeing input in `Example.StrayExample`).
  Large pages do no harm: neither of the two looks behind them.
- `bench_stats` adds the two middle samples in 64 bits. The reported median is that of the sample exactly
  when their sum fits, and otherwise short by 2^63. With an offset above the median by more than one half
  it returns 0, and by one and a half or more its final cast is undefined (`BenchStats.BenchStats`; inputs
  for both in `Example.OneSampleReport`).

## Model

| member | source | states |
|---|---|---|
| PageEntry.RewriteFields | server/exception/exception_p_enclave/Enclave/paging.h:109 | the stored entry takes every bit outside 12..47 from the new flags alone (all old flags, NX included, are dropped) and ORs the address bits of both |
| PageEntry.RewriteIdempotent | server/exception/exception_p_enclave/Enclave/paging.h:102-112 | protecting a page twice with the same flags is protecting it once, for all flags |
| PageEntry.RewriteKeepsFrame | server/exception/exception_p_enclave/Enclave/paging.h:34-35 | the frame of every entry survives a rewrite if and only if the flags have no address bits |
| PageEntry.RewriteValue | server/exception/exception_p_enclave/Enclave/paging.h:109 | with flags below the address bits the stored word is 4096 times the old frame number plus the flags |
| PageTable.TableOfPrefix | server/exception/exception_p_enclave/Enclave/paging.h:78-97 | which table a walk is in depends only on the leading indices of the address |
| PageTable.LargeByEntries | server/exception/exception_p_enclave/Enclave/paging.h:67-97 | the walk ends at a large page exactly if the first raw entry on it that leads to no table has bits 0 and 7 set |
| PageTable.SlotInjective | server/exception/exception_p_enclave/Enclave/paging.h:78-100 | in tree-shaped tables two addresses have the same leaf slot exactly when they agree on bits 12 to 47 |
| PageTable.SlotInOwnTable | server/exception/exception_p_enclave/Enclave/paging.h:67-100 | a leaf slot is an entry of no interior table and of no other leaf table |
| PageTable.LeafStoreKeepsWalks | server/exception/exception_p_enclave/Enclave/paging.h:102-112 | a leaf store changes no walk of any address at any level |
| PageTable.LeafStore | server/exception/exception_p_enclave/Enclave/paging.h:109 | a leaf store is a single-point update of the map from pages to leaf entries and keeps the tree shape |
| Translation.HwUsesSlot | server/exception/exception_p_enclave/Enclave/paging.h:78-100 | the slot `get_entry` finds is the entry the hardware walk uses, which also needs it present and writes allowed at every level |
| Translation.LargeMapped | server/exception/exception_p_enclave/Enclave/paging.h:71-72 | the software walk ends at a large page exactly where the hardware maps one, or at the large-page bit of a root entry |
| Translation.LeafStoreTranslations | server/exception/exception_p_enclave/Enclave/paging.h:102-112 | a leaf store changes the hardware translation of its own page only, and to what |
| Protection.ProtectRefines | server/exception/exception_p_enclave/Enclave/paging.h:114-127 | the loop refines the abstract update: aborts exactly at the first large page, every touched page with a leaf slot before it holds its old frame and the new flags, all else is unchanged, the tables stay the same tree; for any range and any flags |
| Protection.RangeAborts | server/exception/exception_p_enclave/Enclave/paging.h:114-127 | the loop aborts if and only if the raw entries on the walk of some step of the range hold a large page |
| Paging.IndicesOfAddress | server/exception/exception_p_enclave/Enclave/paging.h:28-31 | the four index macros read the four indices of the page, whatever bits 48 to 63 are |
| Paging.Mmu.GetEntryWalks | server/exception/exception_p_enclave/Enclave/paging.h:78-100 | the pointer walk is NULL, aborts, or points at the slot exactly as the walk by table address ends |
| Paging.Mmu.SamePointer | server/exception/exception_p_enclave/Enclave/paging.h:78-100 | `get_entry` of two addresses with leaf slots returns the same pointer if and only if they agree on bits 12 to 47 |
| Paging.NullTableExact | server/exception/exception_p_enclave/Enclave/paging.h:62-75 | behind a present entry that is no large page the hardware goes on to the next table, and the software walk stops if and only if the entry holds the address 2^47 |
| Paging.Mmu.Hardware | server/exception/exception_p_enclave/Enclave/paging.h:110 | any fills and evictions leave each cached translation as it was or make it the current one |
| Paging.Mmu.StoreLeaf | server/exception/exception_p_enclave/Enclave/paging.h:109 | between store and flush at most the page being rewritten is stale, whatever the hardware caches meanwhile |
| Paging.Mmu.MprotectPage | server/exception/exception_p_enclave/Enclave/paging.h:102-112 | result code, with abort if and only if the raw entries on the walk hold a large page; memory effect; and no stale page left when the address is canonical |
| Paging.Mmu.Mprotect | server/exception/exception_p_enclave/Enclave/paging.h:114-127 | -1 and no effect when unaligned; otherwise the memory effect of the page loop with the end wrapping at 2^64, abort if and only if a walk of the range meets a large page, else 0 even if pages had no slot, and coherence on return under every interleaving with the hardware |
| Repair.RepairIsMprotect | server/exception/exception_p_enclave/Enclave/Enclave.cpp:135-146 | the handler's `mprotect` of one page at the fault address rewrites that page and nothing else, or nothing at all in the last page of the address space |
| Repair.RepairProgress | server/exception/exception_p_enclave/Enclave/Enclave.cpp:135-146 | one repair aborts exactly at a large page, and otherwise the retried write succeeds if and only if the page was repairable |
| Repair.RepairKeepsTables | server/exception/exception_p_enclave/Enclave/Enclave.cpp:135-146 | a repair leaves the tables above the leaves as they are, and a tree |
| Repair.RepairAborts | server/exception/exception_p_enclave/Enclave/Enclave.cpp:135-146 | one repair aborts exactly at an unaligned address or over a large page by the raw entries (short of the last page), storing nothing; every page the hardware maps as a large page makes it abort |
| Repair.RepairedEntry | server/exception/exception_p_enclave/Enclave/Enclave.cpp:139 | a repaired leaf entry is 4096 times its old frame number plus 3 |
| Repair.FaultProgress | server/exception/exception_p_enclave/Enclave/Enclave.cpp:135-146 | in memory: after any number of repeated faults the write succeeds if and only if the page was repairable at first, and nothing changes after the first (TLB, counters and processor: `Enclave.Machine.RefusedWrite` and `Enclave.Machine.Access`) |
| Repair.SlotIsNotEnough | server/exception/exception_p_enclave/Enclave/paging.h:97-111 | with write permission missing above the leaf the repair reports success and the write faults again |
| Repair.FlushExact | server/exception/exception_p_enclave/Enclave/paging.h:102-112 | `mprotect_page` leaves every coherent TLB coherent if and only if the address is canonical, or the walk finds no slot, or the rewrite stores a present entry back unchanged or an absent one as absent: a condition on address, flags and tables before the call |
| Repair.FlushExactMapped | server/exception/exception_p_enclave/Enclave/paging.h:102-112 | the same for a TLB that never caches a failed walk: then an absent entry may become present without a flush |
| Repair.CanonicalRangeFlushed | server/exception/exception_p_enclave/Enclave/paging.h:121-125 | a range inside one canonical half leaves no page unflushed |
| Repair.NoRemovedWrite | server/exception/exception_p_enclave/Enclave/Enclave.cpp:72 | once write permission is removed from a range, neither the tables nor any coherent TLB grants a write to a page of it |
| Dump.DumpInner | server/exception/exception_p_enclave/Enclave/paging.h:129-152 | the loop and recursion print the listing of the table |
| Dump.IndexRoundTrip | server/exception/exception_p_enclave/Enclave/paging.h:135-138 | page numbers and canonical page addresses correspond one to one and in order |
| Dump.EntryVaddrIsCanonical | server/exception/exception_p_enclave/Enclave/paging.h:135-138 | the address printed for an entry is the canonical address of the first page behind it |
| Dump.FourIndexRoundTrip | server/exception/exception_p_enclave/Enclave/paging.h:28-31 | the address built from any four indices on the way down is a canonical page address from which the index macros read the same four indices |
| Dump.AddressRoundTrip | server/exception/exception_p_enclave/Enclave/paging.h:135-138 | an address is rebuilt from its four indices if and only if it is a canonical page address |
| Enumeration.ListingScans | server/exception/exception_p_enclave/Enclave/paging.h:129-152 | the lines of any level printed for any table, from any entry on, against the page-by-page scan of the pages behind: nothing missing, equal when no stray entry has an entry of that level behind it in the tables, longer when one has |
| Enumeration.DumpEnumerates | server/exception/exception_p_enclave/Enclave/paging.h:129-157 | with limit at least 512, at each of the four levels: no nonzero entry of a walk is missing, and the lines are strictly increasing in address and show exactly the entries of the walks, with their index, canonical first address and word, if and only if no stray entry on a walk has a nonzero entry of that level behind it, a condition on the tables alone |
| Enumeration.DumpCut | server/exception/exception_p_enclave/Enclave/paging.h:146-151 | under any limit the dump prints a subsequence of the unlimited dump, so on tables without stray entries each line shows an entry of a walk as it is, in strictly increasing order at each level |
| Enumeration.ListingHasLines | server/exception/exception_p_enclave/Enclave/paging.h:129-152 | a listing has a line of a level if and only if nonzero entries that are no large pages lead from one of its entries to a nonzero entry of that level |
| Enumeration.NothingStray | server/exception/exception_p_enclave/Enclave/paging.h:67-76 | tables in which every nonzero interior entry leads to a table or is a large page meet that condition |
| Example.StrayExample | server/exception/exception_p_enclave/Enclave/paging.h:140-145 | a root entry with an address but no present bit: the dump lists a leaf entry of page 0, the walk of page 0 finds nothing |
| Example.LargePageExample | server/exception/exception_p_enclave/Enclave/paging.h:71-72 | tree-shaped tables with a large-page entry at level 1: the hardware maps page 0 by it, and repair and protection abort without a store |
| Enumeration.DumpCost | server/exception/exception_p_enclave/Enclave/paging.h:129-157 | at most w + w^2 + w^3 + w^4 lines, w the limit cut to 1..512, for any table contents |
| Enumeration.DumpCostReached | server/exception/exception_p_enclave/Enclave/paging.h:129-157 | the bound is met for every limit by a root that maps itself |
| Trap.StubsAgree | server/exception/exception_p_enclave/Enclave/exception.S:42-1058 | each stub pushes a dummy code exactly for the vectors that older processors give none, as the manual lists them; newer ones differ at 21, 29 and 30 |
| Trap.FrameFields | server/exception/exception_p_enclave/Enclave/exception.S:4-22 | the handler finds a 16-byte aligned frame with every register, the vector, the error code or 0, and the return state at the offsets of `trapframe_t`, and the interrupted stack untouched, whatever traps were taken between instructions of the entry code |
| Trap.NestedRoundTrip | server/exception/exception_p_enclave/Enclave/exception.S:4-40 | any nesting of traps with the error codes of the hardware, inside handlers or before any instruction of stub, save and restore code, and handlers that store only `tf->rip` above their frames: the interrupted program resumes with all registers, flags, segments and stack, at the chosen address |
| Trap.ScriptAgrees | server/exception/exception_p_enclave/Enclave/exception.S:4-40 | with any number of returning traps at any instruction boundaries, entry and exit code leave the registers and stack words of an undisturbed run |
| Trap.BodyStaysBelow | server/exception/exception_p_enclave/Enclave/exception.S:4-40 | whatever runs in a handler, nested traps included, leaves memory from its frame up unchanged |
| Trap.MismatchReturnsElsewhere | server/exception/exception_p_enclave/Enclave/exception.S:42-1058 | where a trap whose error code the stub gets wrong returns to |
| Trap.TransparentIffMatching | server/exception/exception_p_enclave/Enclave/exception.S:42-1058 | with or without an error code, a vector's path restores every interrupted program if and only if that is what older processors do |
| Trap.TransparentVectors | server/exception/exception_p_enclave/Enclave/exception.S:42-1058 | with the error codes of the processor, every vector's path restores every interrupted program, except 21, 29 and 30 on newer processors |
| Trap.Processor.Execute | server/exception/exception_p_enclave/Enclave/exception.S:4-40 | running code in place on registers and stack follows the instruction semantics |
| Gates.GateRoundTrip | server/exception/exception_p_enclave/Enclave/signal.h:36-65 | the CPU decodes a packed gate to the full 64-bit offset, negative ones included, and a present interrupt gate of privilege 0 on the current stack |
| Gates.Lidt | server/exception/exception_p_enclave/Enclave/signal.h:67-76 | the ten-byte operand loads back to the table's address and size minus one |
| Gates.InitException | server/exception/exception_p_enclave/Enclave/signal.h:86-92 | every gate of the table is set from its entry and the descriptor covers all 256 |
| Gates.Dispatch | server/exception/exception_p_enclave/Enclave/signal.h:86-92 | through descriptor and packed table every vector reaches its own entry address |
| Gates.HandlerSeesVector | server/exception/exception_p_enclave/Enclave/exception.S:42-1318 | from gate fetch to the call: the code at the delivered address runs with code segment 8 and interrupts and single steps off, and the frame names the vector that was raised and holds the interrupted state |
| Accounting.SweepProtectSweep | server/exception/exception_p_enclave/Enclave/Enclave.cpp:69-81 | write all, protect all, write all again comes to old frame with P and W on every page |
| Accounting.SweptEntries | server/exception/exception_p_enclave/Enclave/Enclave.cpp:80-81 | in numbers: a sweep turns the entries of the range without both low bits into 4096 times the frame number plus 3 |
| Accounting.Int32Range | server/exception/exception_p_enclave/Enclave/Enclave.cpp:40-42 | an `int` shows every count below 2^31 as it is |
| Example.ChainIsTree | server/exception/exception_p_enclave/Enclave/paging.h:78-100 | a chain of four tables is tree shaped whichever page it leads to |
| Example.BufferExample | server/exception/exception_p_enclave/Enclave/Enclave.cpp:69-81 | the hypotheses of the whole-run theorems can be met: such a chain gives 512 consecutive pages a leaf slot below writable entries |
| Example.HighBufferExample | server/exception/exception_p_enclave/Enclave/Enclave.cpp:69-81 | they can be met in the upper half of the address space too |
| Example.ReadOnlyRoot | server/exception/exception_p_enclave/Enclave/Enclave.cpp:135-146 | with a read-only root entry the handler reports success on a fault at address 0 and the write faults again |
| Example.LastPageExample | server/exception/exception_p_enclave/Enclave/paging.h:121-126 | a fault on the last page of the address space is repaired into nothing, although its slot is below writable entries |
| Example.StaleExample | server/exception/exception_p_enclave/Enclave/paging.h:109-111 | removing write permission through 0x0000800000000000 leaves a TLB that still grants the write |
| Example.FrameLost | server/exception/exception_p_enclave/Enclave/paging.h:109 | flags with address bits turn frame 5 into frame 7 |
| Example.HighTableExample | server/exception/exception_p_enclave/Enclave/paging.h:67-75 | a page the hardware maps writable through a table at 2^47, for which the walk finds no entry |
| Accounting.ProtectedSweepFaults | server/exception/exception_p_enclave/Enclave/Enclave.cpp:72-81 | after protection a write sweep faults on each page of the range exactly once, in order |
| Accounting.LastRewriteWins | server/exception/exception_p_enclave/Enclave/paging.h:109 | of two rewrites only the flags of the last remain, for every entry, if and only if the first flags carry no address bit that the second do not carry |
| Enclave.Machine.ExceptionHandler | server/exception/exception_p_enclave/Enclave/Enclave.cpp:122-160 | per vector: abort below 32 except at 6 and 14, otherwise one event logged and the one `int` counter incremented, repair effect on #PF, `rip + 2` on #UD |
| Enclave.Machine.TakeTrap | server/exception/exception_p_enclave/Enclave/signal.h:94-98 | a trap through stub, handler and return restores the interrupted program at the right address, with or without a registered handler |
| Enclave.Machine.TakeTraps | server/exception/exception_p_enclave/Enclave/Enclave.cpp:122-160 | over any sequence of traps that does not abort, each is counted once under its kind, the three counters together grow by its length (modulo 2^32), and the program resumes where the handler sent it; the sequence aborts if and only if it has an unknown vector, or a page fault at an unaligned address or on a large page, as the tables were at the start |
| Enclave.Machine.Interrupts | server/exception/exception_p_enclave/Enclave/Enclave.cpp:147-152 | any number of interrupts leaves memory, the other counts and the interrupted program as they were |
| Enclave.Machine.Access | server/exception/exception_p_enclave/Enclave/Enclave.cpp:77-81 | an access to a repairable page ends, after at most one fault, and faults exactly when the tables did not allow it |
| Enclave.Machine.RefusedWrite | server/exception/exception_p_enclave/Enclave/Enclave.cpp:135-146 | n retries of a write to a page that cannot be repaired: TLB and tables still refuse it, #PF grew by n, the other counts did not change, tables are those after the first repair, the program has not moved |
| Enclave.Machine.WriteSweep | server/exception/exception_p_enclave/Enclave/Enclave.cpp:80-81 | the sweep faults once on each page not writable before, stores 4096 times the frame number plus 3 there and changes no other leaf entry |
| Enclave.Machine.ProtectBuffer | server/exception/exception_p_enclave/Enclave/Enclave.cpp:72 | protecting the buffer succeeds and leaves each of its leaf entries 4096 times the frame number plus 1 |
| Enclave.Machine.RunUd2 | server/exception/exception_p_enclave/Enclave/Enclave.cpp:93-97 | the loop adds exactly nrepeats to the #UD counter, as long as that stays below 2^31, whatever interrupts arrive |
| Enclave.Machine.EcallException | server/exception/exception_p_enclave/Enclave/Enclave.cpp:55-110 | never aborts; #PF grows by the pages not writable at first plus n, each buffer page faulting exactly once after protection; #UD by nrepeats (both as shown by the `int` counters below 2^31); every buffer entry ends as 4096 times its frame number plus 3, no other changes; final processor state |
| Counters.DifferenceIsDuration | server/linux-sgx/eenter-eexit-stats.patch:46-53 | the 32-bit halves carried across the boundary give the full 64-bit time difference |
| Counters.CountersExact | server/linux-sgx/eenter-eexit-stats.patch:46-61 | for any number of threads and any interleaving: each count is booked crossings plus threads between the two additions, each cycle counter the sum of the booked durations mod 2^64, entries exceed exits by the threads inside |
| Counters.StampsReal | server/linux-sgx/eenter-eexit-stats.patch:35-37 | every logged crossing was made by a thread reading the time stamp counter at two successive steps of its own, with exactly these stamps, at steps 0 and 1 of its round for an entry and 4 and 5 for an exit |
| Counters.CountsBySteps | server/linux-sgx/eenter-eexit-stats.patch:46-61 | the counts by the number of steps of each thread: an entry is counted with step 2 and booked with step 3 of every round, an exit with 6 and 7 |
| Counters.OneRound | server/linux-sgx/eenter-eexit-stats.patch:46-61 | one thread, in from 1000 to 1500 and out from 2^32-1 to 2^32+1: counts 1 and 1, cycles 500 and 2 |
| Counters.StepKeepsInv | server/linux-sgx/eenter-eexit-stats.patch:141-156 | every step of every thread, on both sides of the boundary, keeps that invariant |
| Counters.QuiescentCountersAgree | server/linux-sgx/eenter-eexit-stats.patch:141-156 | with all threads outside, EENTER and EEXIT counters are equal and both cycle sums complete |
| Counters.ReaderSees | server/linux-sgx/eenter-eexit-stats.patch:74-84 | nothing is written unless both pointers are given; the count is exact for the moment of the first load, the cycles for the moment of the second, and the log only grows in between, by at most one crossing a step |
| Counters.ReaderAtRest | server/linux-sgx/eenter-eexit-stats.patch:74-84 | read with all threads outside, both numbers are about all crossings made |
| EdgeCalls.BalancedCrossings | server/edge-calls/Enclave/Enclave.cpp:44-58 | for every forest of nested calls EENTERs = EEXITs = number of ECALLs and OCALLs |
| EdgeCalls.TraceExecutable | server/edge-calls/Enclave/Enclave.cpp:80-96 | a trace of calls alternates sides and returns to its side if and only if ECALLs and OCALLs alternate down every branch |
| EdgeCalls.ProgramSize | server/edge-calls/App/App.cpp:188-231 | the program makes 2(count+1)+5 calls with in-enclave time stamps and 6(count+1)+6 with OCALL time stamps |
| EdgeCalls.DocumentedRun | README.md:287-290 | with 10000 warm-up and 1000000 measured samples the program makes 2020007 calls |
| EdgeCalls.Session.EcallBenchOcallEmpty | server/edge-calls/Include/common.h:36-42 | one warm-up and count recorded OCALL samples inside one ECALL |
| EdgeCalls.Session.BenchMain | server/edge-calls/App/App.cpp:196-238 | both reported counts equal the number of calls of the whole program |
| Statistics.SpreadNonNegative | server/edge-calls/Include/bench.h:33-40 | the radicand of the deviation is nonnegative for every sample |
| Statistics.SpreadBound | server/edge-calls/Include/bench.h:33-40 | n^2 times the variance is at most (n*max - sum)(sum - n*min) |
| Statistics.MiddleMinimises | server/edge-calls/Include/bench.h:41 | a middle value of a sorted sample minimises the sum of absolute distances |
| Statistics.MedianNearMean | server/edge-calls/Include/bench.h:29-41 | median and mean of every nonempty sample are within one deviation |
| BenchStats.SortedUnique | server/edge-calls/Include/bench.h:17-31 | `cmpfunc` leaves one sorted permutation only, so any `qsort` gives the same buffer |
| BenchStats.SortSeqSorts | server/edge-calls/Include/bench.h:29-31 | the sorted buffer is ordered by `cmpfunc` and is a permutation of the samples |
| BenchStats.MedianHalves | server/edge-calls/Include/bench.h:41 | at least half of the samples are at most, and at least half at least, the reported median |
| BenchStats.MedianWithinDeviation | server/edge-calls/Include/bench.h:33-41 | squared distance of median and mean is at most the radicand, in reals |
| BenchStats.DeviationWithinExtremes | server/edge-calls/Include/bench.h:33-40 | the radicand is at most (max - mean)(mean - min), in reals |
| BenchStats.BetweenExtremes | server/edge-calls/Include/bench.h:33-41 | least and greatest are members and bounds of the sample, median and mean lie between them |
| BenchStats.BenchStats | server/edge-calls/Include/bench.h:24-64 | the report is that of the samples [warmup, warmup+test), shifted by the offset with the deviation unchanged, except that the median is short by 2^63 when the two middle samples do not add up in 64 bits, and coherent when they do; the 64-bit result is the reported median rounded half up when that is at least 0, and 0 for a reported median between -1.5 and -0.5 |
| BenchStats.SmallSamplesFit | server/edge-calls/Include/bench.h:41 | samples below 2^63 always add up |
| Example.OneSampleReport | server/edge-calls/Include/bench.h:41-63 | sample 10 with offset 11 is reported as median -1 and returns 0; sample 2^63 is reported as median 0 |

## Left out

- The GU-Enclave and Intel SGX variants of the exception benchmark: their `mprotect` is an opaque hypercall.
- RustMonitor, the kernel module, the SGX SDK and Occlum are not part of this model; `vmmcall`, EENTER and EEXIT are single steps.
- Printing, files, error tables, enclave creation and time-stamp reading: printed lines are a returned sequence, time stamps are arbitrary values.
- Enclave.Machine.EcallException: requires the buffer's pages to have leaf slots below writable entries, inside one canonical half and short of the last page; `Repair.FaultProgress` says what happens to a write elsewhere.
- Enclave.Machine.EcallException: data bytes of the buffer are not modelled, so a buffer frame that is itself a page table is outside the model; gates set by `init_exception` are covered by `Gates.Dispatch` and the entry points are a constant here.
- Enclave.Machine.Access: unaligned fault addresses make the handler abort (`Repair.RepairOnce`); only the first byte of each page is accessed, as in the program.
- Paging.Mmu.GetEntryWalks: CR3 is page aligned and below 2^47, as the code needs; a CR3 with low bits set would shift the walk.
- Protection.ProtectRefines: the direct map of physical memory is taken to be mapped and writable throughout, so that the walk's own loads and stores never fault; a range that covers the direct map itself, and takes write permission from a table, is outside the model.
- Enumeration.DumpEnumerates: the dump is taken to read every table it follows from physical memory; for a followed table at or above 2^47 the code would read a low-half virtual address instead (NULL at 2^47), and one outside installed memory would fault.
- PageTable.TreeShaped excludes shared or recursively mapped tables: there a leaf store can change a second translation that is not flushed.
- Translation.HwUsesSlot: write protection is enforced in supervisor mode (CR0.WP set), and accessed and dirty bits are not set by the hardware.
- Trap.NestedRoundTrip: the stack pointer does not wrap below 0, SSE state and the compiler's red zone are not modelled, and the RF bit is saved as it was; a trap taken inside entry or exit code must return to where it was taken, and the jumps of the stubs are not separate instructions.
- BenchStats.BenchStats: doubles are exact reals and the square root is not taken (the radicand stands for the squared deviation); for a reported median of -1.5 or less the cast to `uint64_t` is undefined and the result is left open.
- BenchStats.Qsort: stands for the C library's `qsort`; `BenchStats.SortedUnique` makes the choice of algorithm immaterial.
- Counters.CountersExact: asynchronous exits, which resume without passing the patched code, are not steps.
- Filling `all_cycles` in `bench_in_app` and `bench_in_enclave`: only the crossings they make are modelled.
- Plot scripts, shell benchmarks, Makefiles and result files.
