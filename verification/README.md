# Verified models of the operating-systems assignments

Each C program with interesting state is modelled twice. A functional specification gives the state as
a value and each operation as a function of it; the theorems are about this specification. A program in the
form of the source (arrays and fields updated in place, loops, one method per C function) is proved to compute
exactly what the specification says, so that every theorem holds of it.

| modules | program |
|---|---|
| `MachineWords`, `Paging`, `PagingBuffers`, `Mmu`, `MmuCoherence`, `MmuSizes`, `MmuFifo`, `MmuSimulator` | first memory manager, `Assignment_4/solution/Assignment4.c` |
| `TwoQueues`, `Mmu2`, `Mmu2Fifo`, `Mmu2Simulator` | second memory manager, `Assignment_4/solution2/assignment4.c` |
| `Lockstep` | the two memory managers side by side |
| `Fifo` | first-in-first-out replacement as a policy, used by both memory managers |
| `DiskPath`, `DiskSstf`, `DiskZigzag`, `DiskOrder`, `DiskShape`, `DiskDetermined`, `DiskSweep`, `DiskScheduler` | the six disk schedulers, `Assignment_5/assignment5.c` |
| `SleepingTa`, `SleepingTaInvariant`, `SleepingTaTheorems`, `SleepingTaPermits`, `SleepingTaRest`, `SleepingTaLiveness`, `SleepingTaProgram` | the Sleeping TA, `Assignment_3/solution/q1.c` |
| `Bank`, `BankProgram` | the bounded account, `Lab_3/solution/part2.c` |
| `History` | the shell history, `Assignment_2/solution/shell.c` |
| `Ring`, `Sequences` | rings in arrays; facts about sequences and sets |

`dafny verify dfyconfig.toml` checks the whole project. The C programs were not executed.

## How the programs are modelled

**Memory managers.** The TLB and the physical memory have any positive number of entries and frames; the
sizes 16 and 128 of the source are an instance. Pages, the page table, the 256-byte copy and the byte type are
those of the source. A trace is any sequence of integers, as `atoi` returns them; the first program cuts them
to 16 bits, the second rejects page numbers above 255. Mask and shift expressions are modelled by division and
remainder; `Mmu.AccessShowsWords` and `Mmu2.AccessShowsWords` prove, on machine words and for every number read, that this
is what the masks and shifts of the source compute.

**Threads.** Each thread is a program counter over its accesses to shared memory, the mutex and the semaphores;
reads outside the lock are steps of their own. A schedule is any sequence of threads, and a blocked thread stays
where it is, so a statement about all schedules is one about all interleavings. The numbers of students,
depositors and withdrawers are arbitrary, and so is the value `ta_available` starts with, which is 1 in main.
Statements that something happens in the end are about infinite executions that are strongly fair: a thread that is
enabled again and again moves again and again.

**Disk schedulers.** The request array, the head, the direction (`LEFT`, `RIGHT` or any other string) and the
disk size are inputs; the tracks served, in order, and the total printed are the results.

## What was found

* The first memory manager repairs only the first TLB entry of an evicted page and adds the new page a second
  time, so it holds duplicates. It is nevertheless right for every backing store and every trace **if and only if**
  the TLB has fewer than twice as many entries as there are frames, or there is a frame for each of the 256
  pages (`MmuSizes.RightExactlyForGoodSizes`). The sizes 16 and 128 are good. For all others, 2F + 2 accesses to
  F + 1 pages read a wrong byte (F is the number of frames).
* The second memory manager looks up the *new* page in `update_TLB`, which has just missed, so the evicted page
  stays in the TLB. `Assignment_4/solution2/documentation.md:294` and `:329` say that `update_TLB` avoids faulty hits; the
  code does not, and the model follows the code. A trace is translated rightly for every backing store if and only if no
  access asks for a page that is still in the TLB but no longer in memory (`Mmu2Fifo.RightExactlyWhenNeverStale`).
  Every trace is translated rightly if and only if the TLB has one entry, or as many as there are frames, or there is a
  frame for each page (`Mmu2Fifo.RightExactlyForGoodSizes`); 16 and 128 are none of these.
* FIFO replacement costs at most F times the faults of any demand-paging schedule that also starts empty; there is no
  additive term.
* SSTF moves the head less than twice as far as any other order of service, and over less than twice the extent of the
  requests; on requests that zigzag with doubling steps it moves exactly twice the extent less one.
* The comment at `Assignment_3/solution/q1.c:173` says that a student waits for the TA. That the students past this wait
  are no more than the TA has helped holds in every run **if and only if** `ta_available` starts at 0 or there is no
  student; in main it starts at 1, and one student more may be past the wait, never two
  (`SleepingTaPermits.WaitMeansHelpExactlyWithoutPermits`, `PassedAtMostPermitsAhead`). That each student past the wait
  has been helped *itself* holds if and only if there is no student, or a single one and `ta_available` starts at 0: with
  two, one can take the permit posted for the other (`SleepingTaPermits.WaitMeansOwnHelpExactlyForOne`).
* No wake-up is lost all the same: under strong fairness everybody seated is helped, in order, and no wait is endless
  (`SleepingTaLiveness.EverySeatedIsHelped`, `EveryWaitEnds`).
* C-SCAN and C-LOOK drop every request for the track on which the head starts.

## Model

| member | source | states |
|---|---|---|
| MachineWords.Word16 | Assignment_4/solution/Assignment4.c:149 | every number below 2^16 is the value of a 16-bit word |
| MachineWords.MasksSplitAddress | Assignment_4/solution/Assignment4.c:152-153 | on 16-bit words the page mask and shift give the quotient by 256, the offset mask the remainder |
| MachineWords.ShiftJoinsAddress | Assignment_4/solution/Assignment4.c:234 | on 32-bit words, for frame numbers below 2^24, shifting the frame and or-ing the offset in is frame times 256 plus offset |
| MachineWords.Word32 | Assignment_4/solution2/assignment4.c:100 | every number below 2^32 is the value of a 32-bit word |
| MachineWords.MasksSplitWideAddress | Assignment_4/solution2/assignment4.c:103-108 | on 32-bit words the shift by 8 is division by 256 and the mask the remainder |
| MachineWords.ShortAddress | Assignment_4/solution2/assignment4.c:111 | a 32-bit address has a page number below 256 if and only if it is below 2^16 |
| Paging.SignedChars | Assignment_4/solution/Assignment4.c:237 | the values printed are exactly those of a signed char, -128 to 127 |
| Mmu.AddressWord | Assignment_4/solution/Assignment4.c:149-153 | for every number read, its 16-bit word a: the page number is (a & 0xFF00) >> 8 and the offset a & 0x00FF |
| Mmu.AccessShowsWords | Assignment_4/solution/Assignment4.c:148-242 | every access prints that word as the address, and the frame translated from its page shifted left by 8 with its offset or-ed in |
| Mmu.TraceShowsAddresses | Assignment_4/solution/Assignment4.c:144-243 | so does every line of every trace |
| Mmu2.AddressWord | Assignment_4/solution2/assignment4.c:100-108 | for every number read, its 32-bit word a: the page number is a >> 8 and the offset a & 0xFF |
| Mmu2.AccessShowsWords | Assignment_4/solution2/assignment4.c:100-148 | an access is rejected, with address and page number and without changing anything, if and only if a >> 8 is 256 or more; otherwise it prints a and the frame shifted left by 8 with the offset or-ed in |
| Mmu2.TraceShowsAddresses | Assignment_4/solution2/assignment4.c:99-149 | so does every line of every trace |
| PagingBuffers.SearchTlb | Assignment_4/solution/Assignment4.c:46-58 | the loop, the same in both programs, returns the frame of the first entry for the page, -1 if none |
| PagingBuffers.CopyPage | Assignment_4/solution/Assignment4.c:189 | the frame becomes the 256 bytes of the page and all other frames stay, in either program |
| MmuCoherence.MissMeansAbsent | Assignment_4/solution/Assignment4.c:46-58 | a TLB search that misses means no entry at all has the page |
| MmuCoherence.HitIsTableFrame | Assignment_4/solution/Assignment4.c:158-163 | in a coherent state a TLB hit returns the frame the page table has for the page, duplicates notwithstanding |
| MmuCoherence.InsertionMovesDistances | Assignment_4/solution/Assignment4.c:61-69 | one TLB insertion brings every other position exactly one insertion closer to being overwritten, and the written one is farthest |
| MmuCoherence.FreeLoadAges | Assignment_4/solution/Assignment4.c:182-195 | a load into a free frame makes that frame the youngest and every other frame one fault older |
| MmuCoherence.ReplaceAges | Assignment_4/solution/Assignment4.c:203-224 | a replacement takes the oldest frame, makes it the youngest and every other frame one fault older |
| MmuCoherence.TableHitKeeps | Assignment_4/solution/Assignment4.c:168-175 | a page-table hit keeps the invariant, and can only occur when the TLB has fewer entries than there are frames |
| MmuCoherence.LoadFreeKeeps | Assignment_4/solution/Assignment4.c:182-199 | a fault served from a free frame keeps coherence, the fading of duplicates and the large-TLB invariant |
| MmuCoherence.EvictedHasOneEntry | Assignment_4/solution/Assignment4.c:72-90 | a page about to be evicted has at most one TLB entry, which is why repairing the first match is enough |
| MmuCoherence.ReplaceKeepsCoherent | Assignment_4/solution/Assignment4.c:200-225 | after a replacement every TLB entry in use still agrees with the page table |
| MmuCoherence.ReplaceKeepsDuplicatesFade | Assignment_4/solution/Assignment4.c:72-90 | of two entries for one page one is overwritten before the page becomes the oldest, also for the pair TLB_Update creates, if the TLB has fewer than twice as many entries as there are frames |
| MmuCoherence.ReplaceKeepsSlots | Assignment_4/solution/Assignment4.c:72-90 | with at least as many entries as frames, each resident page is still at the TLB position its load wrote |
| MmuCoherence.ReplaceKeeps | Assignment_4/solution/Assignment4.c:200-225 | a replacement keeps the whole invariant for fewer than 2F entries |
| MmuCoherence.FaultFindsFreeFrame | Assignment_4/solution/Assignment4.c:182-200 | with a frame for each page the replacement branch is never taken |
| MmuCoherence.TranslateKeeps | Assignment_4/solution/Assignment4.c:157-231 | every access keeps the invariant, whichever of the four paths it takes |
| MmuCoherence.TranslateReturnsTableFrame | Assignment_4/solution/Assignment4.c:157-231 | the frame number of an access is the page table's entry for its page afterwards, on all four paths |
| MmuCoherence.TranslateKeepsMemory | Assignment_4/solution/Assignment4.c:189-212 | every frame in use holds the backing-store bytes of the page recorded for it, after each access |
| MmuCoherence.AccessIsRead | Assignment_4/solution/Assignment4.c:144-243 | the value printed is the backing store's byte at the logical address, and the physical address is that of the page table |
| MmuCoherence.TraceReadsStore | Assignment_4/solution/Assignment4.c:144-243 | over a whole trace the invariant holds and every value printed is the backing store's |
| MmuCoherence.GoodSizesReadStore | Assignment_4/solution/Assignment4.c:92-243 | from the initial state, for good sizes, every trace prints the backing store's bytes |
| MmuSizes.FillStep | Assignment_4/solution/Assignment4.c:182-199 | loading pages in order fills frames and TLB in order |
| MmuSizes.WrapStep | Assignment_4/solution/Assignment4.c:200-225 | with at least 2F entries each eviction of the round trip leaves the repaired entry and a second one F positions later |
| MmuSizes.StaleHit | Assignment_4/solution/Assignment4.c:72-90 | evicting the page with two entries leaves one of them, and the next access to that page gets a frame holding another page |
| MmuSizes.BadSizesMisread | Assignment_4/solution/Assignment4.c:144-243 | for all other sizes there are a backing store and 2F + 2 addresses for which a wrong byte is printed |
| MmuSizes.RightExactlyForGoodSizes | Assignment_4/solution/Assignment4.c:14-18 | the program prints the backing store's bytes for all stores and traces if and only if TLB_SIZE < 2 * NUM_FRAMES or there is a frame for each page |
| MmuSizes.SourceSizesAreRight | Assignment_4/solution/Assignment4.c:14-18 | with 16 entries and 128 frames every trace prints the bytes of the 65536-byte backing store |
| Fifo.QueueIsLastLoaded | Assignment_4/solution/Assignment4.c:200-225 | the resident pages are always the last NUM_FRAMES pages loaded |
| Fifo.OneLoadPerFault | Assignment_4/solution/Assignment4.c:176-226 | exactly one page is loaded for each fault |
| Fifo.DistinctPagesFault | Assignment_4/solution/Assignment4.c:176-226 | faults are at least the distinct pages not resident at the start |
| Fifo.FittingTraceFaultsOnce | Assignment_4/solution/Assignment4.c:182-199 | when all pages in use fit, faults are exactly the distinct pages not resident at the start |
| Fifo.FullPhaseHoldsAll | Assignment_4/solution/Assignment4.c:200-225 | after as many faults as there are frames, the queue is exactly what the rival held, so the next FIFO fault costs the rival one too |
| Fifo.PhaseStep | Assignment_4/solution/Assignment4.c:200-225 | the cost of one reference to FIFO is covered by the slack of its phase and by what the rival pays |
| Fifo.PhaseBound | Assignment_4/solution/Assignment4.c:200-225 | from the middle of any phase, FIFO's faults are at most F times the rival's plus the slack left |
| Fifo.Competitive | Assignment_4/solution/Assignment4.c:176-226 | FIFO faults at most F times as often as any demand-paging schedule with F frames that starts empty |
| MmuFifo.QueueIsResident | Assignment_4/solution/Assignment4.c:195-218 | the queue read off page_order and its indices holds exactly the pages with a page-table entry |
| MmuFifo.FaultsOutsideQueue | Assignment_4/solution/Assignment4.c:158-181 | an access faults if and only if its page is not in the queue; the TLB makes no difference |
| MmuFifo.TranslateTouchesQueue | Assignment_4/solution/Assignment4.c:158-225 | one access changes the queue exactly as FIFO paging without a TLB does |
| MmuFifo.TraceRefinesFifo | Assignment_4/solution/Assignment4.c:144-243 | over a whole trace: same resident pages in the same order and same fault count as FIFO paging without a TLB |
| MmuFifo.HitsAndFaults | Assignment_4/solution/Assignment4.c:158-179 | TLB hits and page faults together are at most the addresses, and exactly these when the TLB has an entry for every frame |
| MmuFifo.PageFaultCount | Assignment_4/solution/Assignment4.c:256-258 | the page-fault count printed is FIFO's, at least the distinct pages, equal to them when they fit, and at most F times that of any rival schedule |
| MmuSimulator.Simulator.constructor | Assignment_4/solution/Assignment4.c:92-111 | the initial arrays and indices are the model's initial state, all counters 0 |
| MmuSimulator.Simulator.TlbAdd | Assignment_4/solution/Assignment4.c:61-69 | writes the entry at TLB_index and moves it round, and changes nothing else |
| MmuSimulator.Simulator.TlbUpdate | Assignment_4/solution/Assignment4.c:72-90 | rewrites the first entry of the replaced page only, then adds the new page as well |
| MmuSimulator.Simulator.Load | Assignment_4/solution/Assignment4.c:205-218 | page copied and entered into page table and frame order, nothing else changed |
| MmuSimulator.Simulator.LoadFree | Assignment_4/solution/Assignment4.c:182-199 | the fault branch with a free frame computes the model's state and returns the frame taken |
| MmuSimulator.Simulator.ReplaceOldest | Assignment_4/solution/Assignment4.c:200-225 | the fault branch with memory full computes the model's state and returns the frame reused |
| MmuSimulator.Simulator.Translate | Assignment_4/solution/Assignment4.c:157-231 | all four paths agree with the model in state, frame and counters |
| MmuSimulator.Simulator.Access | Assignment_4/solution/Assignment4.c:144-243 | one pass of the main loop: the model's state, line printed and counters |
| MmuSimulator.Simulator.TranslateFile | Assignment_4/solution/Assignment4.c:144-243 | the main loop: the model's whole trace, lines printed and counters |
| MmuSimulator.Run | Assignment_4/solution/Assignment4.c:92-261 | the whole program prints the model's lines and counters, every line the 16-bit address and the frame shifted and or-ed with its offset, and for good sizes the backing store's bytes |
| TwoQueues.StepStaysInclusive | Assignment_4/solution2/assignment4.c:116-138 | for good sizes every page in the TLB stays a page in memory |
| TwoQueues.GoodSizesNeverStale | Assignment_4/solution2/assignment4.c:99-149 | for a one-entry TLB, a TLB as large as memory or a frame for each page, no page is ever in the TLB but not in memory when asked for |
| TwoQueues.FillKeepsNeverStale | Assignment_4/solution2/assignment4.c:123-138 | after first references to pages 0..k-1, what is left of a never-stale trace is never stale from the state they lead to |
| TwoQueues.LargeTlbGoesStale | Assignment_4/solution2/assignment4.c:199-249 | with more entries than frames, one page too many and then page 0 is a stale access |
| TwoQueues.SmallTlbGoesStale | Assignment_4/solution2/assignment4.c:199-249 | with fewer entries than frames, refreshing page 0, one page too many and page 0 again is a stale access |
| TwoQueues.BadTraceIsStale | Assignment_4/solution2/assignment4.c:199-249 | for all sizes that are not good there is a trace with a stale access |
| Mmu2.ReplacePageKeepsValid | Assignment_4/solution2/assignment4.c:128-138 | a page fault keeps page table and frame table inverse to each other, and every TLB entry disagrees with the page table only if the page has no entry there |
| Mmu2.Translate | Assignment_4/solution2/assignment4.c:118-138 | every access leads to a well-formed state again and returns a frame that is in use |
| Mmu2.FrameIsRightUnlessStale | Assignment_4/solution2/assignment4.c:118-138 | the frame returned holds the page asked for if and only if the access is not a TLB hit on a page without page-table entry |
| Mmu2.TranslateKeepsMemory | Assignment_4/solution2/assignment4.c:171-196 | every frame in use holds the bytes of the page frame_page names |
| Mmu2.ByteIsOfResidentPage | Assignment_4/solution2/assignment4.c:144-148 | the byte printed is always that of the page now in the frame of the physical address, at the right offset |
| Mmu2Fifo.InTlbQueue | Assignment_4/solution2/assignment4.c:221-238 | a page is in the TLB queue if and only if a search finds it |
| Mmu2Fifo.InFrameQueue | Assignment_4/solution2/assignment4.c:199-218 | a page is in the frame queue if and only if it has a page-table entry |
| Mmu2Fifo.AddTlbTouches | Assignment_4/solution2/assignment4.c:231-238 | after a miss add_TLB moves the TLB as a FIFO cache of TLB_SIZE distinct pages |
| Mmu2Fifo.ReplacePageTouches | Assignment_4/solution2/assignment4.c:199-218 | replace_page moves the frames as a FIFO cache of FRAME_COUNT pages |
| Mmu2Fifo.TranslateSteps | Assignment_4/solution2/assignment4.c:118-138 | one access steps the two queues, no page enters the TLB twice, and it is a stale hit exactly when the queues say so |
| Mmu2Fifo.TraceQueues | Assignment_4/solution2/assignment4.c:99-149 | after a trace the TLB holds distinct pages, those of a FIFO cache over all references, and memory those of a FIFO cache over the references that missed the TLB |
| Mmu2Fifo.TraceCounts | Assignment_4/solution2/assignment4.c:116-154 | the three counters: addresses not rejected, hits of the first cache, faults of the second |
| Mmu2Fifo.NeverStaleReadsStore | Assignment_4/solution2/assignment4.c:99-149 | a trace without stale access prints the backing store's bytes and rejects exactly the invalid page numbers |
| Mmu2Fifo.StaleMisreads | Assignment_4/solution2/assignment4.c:99-149 | a trace with a stale access prints a wrong byte for any store that tells the first stale page from the others |
| Mmu2Fifo.RightExactlyWhenNeverStale | Assignment_4/solution2/assignment4.c:99-149 | for each trace: right for every backing store if and only if no access is stale |
| Mmu2Fifo.RightExactlyForGoodSizes | Assignment_4/solution2/assignment4.c:16-17 | right for every trace and store if and only if TLB_SIZE is 1 or FRAME_COUNT, or there is a frame for each page |
| Mmu2Fifo.SixteenEntriesMisread | Assignment_4/solution2/assignment4.c:199-249 | with the source's 16 entries and 128 frames, accesses to the pages 0 to 127, 0, 128 and 0 misread the last one, for a store that is given |
| Mmu2Simulator.Simulator.constructor | Assignment_4/solution2/assignment4.c:52-63 | the initial arrays and indices are the model's initial state |
| Mmu2Simulator.Simulator.AddTlb | Assignment_4/solution2/assignment4.c:231-238 | writes the entry at TLBindex, moves it round and counts up to TLB_SIZE |
| Mmu2Simulator.Simulator.UpdateTlb | Assignment_4/solution2/assignment4.c:241-249 | changes the frame of the first entry for the new page, if there is one, and nothing else |
| Mmu2Simulator.Simulator.Load | Assignment_4/solution2/assignment4.c:206-210 | page entered into the frame table, copied and entered into the page table, nothing else changed |
| Mmu2Simulator.Simulator.ReplacePage | Assignment_4/solution2/assignment4.c:199-218 | computes the model's state in all arrays and indices |
| Mmu2Simulator.Simulator.TranslateMiss | Assignment_4/solution2/assignment4.c:122-138 | the branch after a TLB miss: the model's state and frame, and whether it was a fault |
| Mmu2Simulator.Simulator.Access | Assignment_4/solution2/assignment4.c:99-149 | one pass of the main loop, rejected addresses included |
| Mmu2Simulator.Simulator.TranslateFile | Assignment_4/solution2/assignment4.c:99-149 | the main loop: the model's whole trace, lines printed and counters |
| Mmu2Simulator.Run | Assignment_4/solution2/assignment4.c:52-162 | the whole program prints the model's lines and counters, every line a rejection of a page number of 256 or more or the address and the frame shifted and or-ed with its offset, and the backing store's bytes if no access is stale |
| Lockstep.StartAgrees | Assignment_4/solution2/assignment4.c:52-63 | both programs start in the same state |
| Lockstep.FreeLoadAgrees | Assignment_4/solution2/assignment4.c:199-218 | while frames are free a fault leaves both in the same state, current_frame_index being next_frame |
| Lockstep.ReplacementAgrees | Assignment_4/solution2/assignment4.c:199-218 | an eviction leaves both in the same state if the evicted page has no TLB entry besides the one about to be overwritten |
| Lockstep.ReplacementSeparates | Assignment_4/solution2/assignment4.c:240-249 | otherwise their TLBs differ afterwards |
| Lockstep.TranslateInLockstep | Assignment_4/solution2/assignment4.c:118-138 | from agreeing states both return the same frame, and they still agree if and only if the access does not separate them |
| Lockstep.LockstepExactlyUnlessSeparated | Assignment_4/solution2/assignment4.c:99-149 | on a trace of 16-bit addresses the states agree after every access if and only if no access separates them |
| Lockstep.CountersInLockstep | Assignment_4/solution2/assignment4.c:116-154 | while they agree: same TLB, page table, memory and frame order at the end, and the same three counters |
| Lockstep.LinesInLockstep | Assignment_4/solution2/assignment4.c:144-148 | and the same lines printed |
| Lockstep.ProgramsInLockstep | Assignment_4/solution2/assignment4.c:52-162 | from the initial states: in lockstep if and only if the trace never separates them, and then the same lines and counters |
| DiskPath.PathReachesBoth | Assignment_5/assignment5.c:42-49 | a path is at least as long as the way to any track on it and on to any later one |
| DiskPath.NoPathBeatsOptimal | Assignment_5/assignment5.c:273-332 | no path that visits every request is shorter than the extent plus the shorter side of the head |
| DiskSstf.Fcfs | Assignment_5/assignment5.c:36-51 | the tracks are printed as they come, and the total is the head movement along them |
| DiskSstf.SweepOn | Assignment_5/assignment5.c:72-110 | one service of a nearest request keeps the waste below the width of the interval seen and below the gap to anything left beyond its far end, because each crossing doubles the distance to what is left behind |
| DiskSstf.SweptAfter | Assignment_5/assignment5.c:72-110 | after any number of services nothing pending lies inside the interval seen, and the movement is its width plus the waste |
| DiskSstf.NearestFirstWithinTwoSpans | Assignment_5/assignment5.c:55-112 | SSTF's total is less than twice the extent of head and requests, and 0 if that is 0 |
| DiskSstf.NearestFirstWithinTwiceAny | Assignment_5/assignment5.c:55-112 | and less than twice that of any order of service, and 0 if that is 0 |
| DiskZigzag.NextTurnIsNearest | Assignment_5/assignment5.c:75-98 | in the zigzag 0, 1, -1, 3, -5, ... the next turning point is 2^k away and none of the later ones is nearer |
| DiskZigzag.ZigzagIsServedInOrder | Assignment_5/assignment5.c:72-110 | SSTF serves the zigzag as it arrives, each tie going to the request that came first |
| DiskZigzag.TwoSpansIsSharp | Assignment_5/assignment5.c:55-112 | for any number of requests there are some for which the total is twice the extent less one, so the bound cannot be lowered |
| DiskSstf.NearestFirstDistinct | Assignment_5/assignment5.c:100-105 | no request is served twice |
| DiskSstf.SomethingLeft | Assignment_5/assignment5.c:72-98 | while fewer services than requests have been made there is a request to pick |
| DiskSstf.CompleteOrderPermutes | Assignment_5/assignment5.c:72-110 | serving each index once serves a permutation of the requests |
| DiskSstf.PickNearest | Assignment_5/assignment5.c:75-98 | the two inner loops find the first of the nearest pending requests and its distance |
| DiskSstf.ServeNext | Assignment_5/assignment5.c:72-110 | one pass of the main loop serves the first of the nearest requests, marks it and adds its distance |
| DiskSstf.ServeAll | Assignment_5/assignment5.c:64-110 | the main loop serves nearest first and adds up the path length |
| DiskSstf.Sstf | Assignment_5/assignment5.c:55-112 | serves a permutation of the requests, each time a nearest one, with the path length as total, at most twice the extent |
| DiskOrder.SortPermutes | Assignment_5/assignment5.c:143-144 | the sort used for qsort yields a permutation of its input; its own contract says that it is sorted |
| DiskOrder.LookServesAll | Assignment_5/assignment5.c:280-290 | LOOK serves each request exactly once, in either direction |
| DiskOrder.ScanServesAll | Assignment_5/assignment5.c:128-144 | SCAN serves each request exactly once and its one boundary; for an unknown direction no boundary |
| DiskOrder.CLookServesOthers | Assignment_5/assignment5.c:350-360 | C-LOOK serves exactly the requests that are not for the start track |
| DiskOrder.CScanServesOthers | Assignment_5/assignment5.c:204-219 | C-SCAN serves exactly these and both boundaries |
| DiskShape.LookHasShape | Assignment_5/assignment5.c:292-324 | LEFT: the tracks below the head descending, then the others ascending; otherwise the others ascending, then those below descending |
| DiskShape.ScanHasShape | Assignment_5/assignment5.c:146-182 | the same with the boundary, 0 or disk_size - 1, among the first run, in its place by size |
| DiskShape.CLookHasShape | Assignment_5/assignment5.c:363-420 | RIGHT: the tracks above the head ascending, then those below ascending; LEFT: those below descending, then those above descending; otherwise nothing |
| DiskShape.CScanHasShape | Assignment_5/assignment5.c:221-265 | the same with both boundaries, each among the run of its side |
| DiskDetermined.LookIsDetermined | Assignment_5/assignment5.c:292-324 | no other order of the requests has LOOK's shape |
| DiskDetermined.ScanIsDetermined | Assignment_5/assignment5.c:146-182 | no other order of the requests and the boundary has SCAN's shape |
| DiskDetermined.CLookIsDetermined | Assignment_5/assignment5.c:363-420 | no other order of the requests off the start track has C-LOOK's shape |
| DiskDetermined.CScanIsDetermined | Assignment_5/assignment5.c:221-265 | no other order of these and the boundaries has C-SCAN's shape |
| DiskSweep.DownThenUp | Assignment_5/assignment5.c:294-309 | closed form of a sweep down the sorted left side and up the right |
| DiskSweep.UpThenDown | Assignment_5/assignment5.c:310-324 | closed form of a sweep up the right side and down the left |
| DiskSweep.UpThenUp | Assignment_5/assignment5.c:363-391 | closed form of a sweep up, a jump to the lowest track and a sweep up |
| DiskSweep.DownThenDown | Assignment_5/assignment5.c:392-420 | closed form of a sweep down, a jump to the highest track and a sweep down |
| DiskSweep.LookClosedForm | Assignment_5/assignment5.c:273-332 | LOOK's total in terms of head, lowest and highest track, for every input and direction |
| DiskSweep.LookIsOptimal | Assignment_5/assignment5.c:273-332 | the smaller of LOOK's two totals is exactly the lower bound on all orders |
| DiskSweep.NothingBeatsLook | Assignment_5/assignment5.c:273-332 | no order that serves every request moves the head less than LOOK's better direction |
| DiskSweep.ScanClosedForm | Assignment_5/assignment5.c:117-190 | SCAN's total in terms of head, lowest and highest track and disk size |
| DiskSweep.LookBeatsScan | Assignment_5/assignment5.c:117-332 | LOOK never moves the head further than SCAN in the same direction |
| DiskSweep.CLookClosedForm | Assignment_5/assignment5.c:337-428 | C-LOOK's total in terms of head, extremes and the requests next to the head |
| DiskSweep.CScanClosedForm | Assignment_5/assignment5.c:195-268 | C-SCAN's total in terms of head, disk size and the request next to the head on the far side |
| DiskSweep.CScanTotalIsPath | Assignment_5/assignment5.c:232-256 | on the disk the jump added separately is the way between the boundaries, so the total is the path length of the tracks served |
| DiskSweep.CLookBeatsCScan | Assignment_5/assignment5.c:195-428 | C-LOOK never moves the head further than C-SCAN in the same direction |
| DiskScheduler.PutOnSide | Assignment_5/assignment5.c:136-139 | one request goes to the end of the buffer exactly if it is on its side |
| DiskScheduler.Distribute | Assignment_5/assignment5.c:134-140 | the loop appends to each buffer exactly the requests on its side, in order, and needs no more room than these |
| DiskScheduler.PrepareSides | Assignment_5/assignment5.c:125-144 | both buffers hold their side and its boundary, sorted |
| DiskScheduler.SweepUp | Assignment_5/assignment5.c:159-164 | an upward loop serves the buffer in order, adds its path length and leaves the head at its end |
| DiskScheduler.SweepDown | Assignment_5/assignment5.c:152-157 | a downward loop serves the buffer in reverse, adds its path length and leaves the head at its end |
| DiskScheduler.UpThenUp | Assignment_5/assignment5.c:363-391 | C-LOOK to the right with its jump: the total is the path length of what is served |
| DiskScheduler.DownThenDown | Assignment_5/assignment5.c:392-420 | C-LOOK to the left with its jump: the total is the path length of what is served |
| DiskScheduler.UpAround | Assignment_5/assignment5.c:222-243 | C-SCAN to the right: two sweeps and the jump across the disk |
| DiskScheduler.DownAround | Assignment_5/assignment5.c:244-265 | C-SCAN to the left: two sweeps and the jump across the disk |
| DiskScheduler.Look | Assignment_5/assignment5.c:273-332 | LOOK serves the requests in the one order of its shape, with the path length as total |
| DiskScheduler.Scan | Assignment_5/assignment5.c:117-190 | SCAN serves the requests and its boundary in the one order of its shape, with the path length as total |
| DiskScheduler.CLook | Assignment_5/assignment5.c:337-428 | C-LOOK serves the requests off the start track in the one order of its shape, with the path length as total; nothing for an unknown direction |
| DiskScheduler.CScan | Assignment_5/assignment5.c:195-268 | C-SCAN serves these and both boundaries in the one order of its shape, with two sweeps and the jump as total; nothing for an unknown direction |
| SleepingTaInvariant.StartInv | Assignment_3/solution/q1.c:30-65 | the initial state satisfies the invariant, for any number of students and any initial value of ta_available |
| SleepingTaInvariant.StudentEffects | Assignment_3/solution/q1.c:133-185 | what each step of a student does to counter, semaphores, announcements and its place in the groups that are counted |
| SleepingTaInvariant.EffectCounts | Assignment_3/solution/q1.c:156-174 | taking a chair adds one to every group of students, the last step of a group takes one from it |
| SleepingTaInvariant.NeverAnEmptyChair | Assignment_3/solution/q1.c:94-104 | whenever the TA announces whom it helps, the chair is taken, by the first student seated and not yet helped |
| SleepingTaInvariant.OccupyNext | Assignment_3/solution/q1.c:159-167 | seating a student in the next slot keeps the chairs the queue of those seated |
| SleepingTaInvariant.VacateOldest | Assignment_3/solution/q1.c:104-109 | clearing the oldest chair keeps the chairs the queue of those seated |
| SleepingTaInvariant.SeatIsFree | Assignment_3/solution/q1.c:156-159 | the chair a student is about to take is empty and the TA has cleared every chair it has helped |
| SleepingTaInvariant.TakeChairKeepsScans | Assignment_3/solution/q1.c:143-159 | a student that takes a chair sits in no other, although it looked chair by chair outside the mutex |
| SleepingTaInvariant.OtherStudentStepsKeepScans | Assignment_3/solution/q1.c:188-199 | a scan keeps what it has seen true until the student sits down |
| SleepingTaInvariant.TaKeepsInv | Assignment_3/solution/q1.c:77-131 | each step of the TA keeps the invariant |
| SleepingTaInvariant.StudentKeepsInv | Assignment_3/solution/q1.c:133-199 | each step of a student keeps the invariant |
| SleepingTaInvariant.RunKeepsInv | Assignment_3/solution/q1.c:77-199 | every interleaving keeps the invariant |
| SleepingTaInvariant.RunKeepsPermits | Assignment_3/solution/q1.c:115-174 | in every interleaving students past the wait and permits left together are the initial permits and the helps posted |
| SleepingTaTheorems.CounterLaw | Assignment_3/solution/q1.c:87-116 | number_students_waiting is the value of students_waiting, plus the students counted and not yet posted, plus one while the TA has come for one and not yet counted it out; it stays between 0 and 3 |
| SleepingTaTheorems.CounterInEveryRun | Assignment_3/solution/q1.c:87-116 | both in every run of the program |
| SleepingTaTheorems.HelpedInOrder | Assignment_3/solution/q1.c:102-109 | in every run the ids helped are a prefix of the ids seated, at most 3 behind |
| SleepingTaTheorems.ChairsAreTheQueue | Assignment_3/solution/q1.c:102-167 | while nobody holds the mutex, the chairs read round from next_student_getting_help are exactly the students waiting, in order, then empty chairs |
| SleepingTaTheorems.NobodyInTwoChairs | Assignment_3/solution/q1.c:156-199 | in every run no student occupies two chairs |
| SleepingTaRest.ChairExactlyIfRoom | Assignment_3/solution/q1.c:154-179 | a student that gets the mutex sits down in the next chair if fewer than 3 wait, and otherwise leaves everything as it was |
| SleepingTaRest.ChairInEveryRun | Assignment_3/solution/q1.c:154-179 | that in every run of the program |
| SleepingTaRest.AwakeForStudents | Assignment_3/solution/q1.c:83-130 | in every run ta_is_asleep implies that the TA is looking, about to doze or about to wake; it is never asleep while it waits for, locks for or helps a student |
| SleepingTaRest.SleepsExactlyWhenNobodyWaits | Assignment_3/solution/q1.c:87-129 | in every run two moves of a looking TA leave it asleep and looking if nobody is counted as waiting, awake and waiting for a student otherwise |
| SleepingTaTheorems.StudentNotForgotten | Assignment_3/solution/q1.c:172-174 | a student blocked on ta_available: the TA is about to post, or more students than initial permits, so at least two, count as waiting |
| SleepingTaTheorems.NoStudentForgotten | Assignment_3/solution/q1.c:172-174 | that in every run of the program |
| SleepingTaTheorems.TaNotForgotten | Assignment_3/solution/q1.c:87-94 | a TA blocked on students_waiting: some seated student with its post ahead can step |
| SleepingTaTheorems.TaNeverForgotten | Assignment_3/solution/q1.c:87-94 | that in every run of the program |
| SleepingTaTheorems.NoDeadlock | Assignment_3/solution/q1.c:77-185 | some thread can always step, and the holder of the mutex always can |
| SleepingTaTheorems.NoRunDeadlocks | Assignment_3/solution/q1.c:77-185 | no run of the program comes to a state in which nothing can step |
| SleepingTaPermits.PassedAtMostPermitsAhead | Assignment_3/solution/q1.c:56 | in every run at most as many students as there were initial permits, one in main, are past the wait without a help to match |
| SleepingTaPermits.AheadExactlyWhenPermitsMissing | Assignment_3/solution/q1.c:56 | in a state some are if and only if permits left and owed are fewer than the initial ones |
| SleepingTaPermits.PassedWithoutHelp | Assignment_3/solution/q1.c:172-174 | with a student and an initial permit: an interleaving in which a student passes the wait, still on its chair, before the TA has moved |
| SleepingTaPermits.WaitMeansHelpExactlyWithoutPermits | Assignment_3/solution/q1.c:173-174 | in every run as many helps as students past the wait, if and only if ta_available starts at 0 or there is no student |
| SleepingTaPermits.SecondPassesForFirst | Assignment_3/solution/q1.c:172-174 | even from 0: an interleaving in which the permit posted for the first student lets the second pass unhelped |
| SleepingTaPermits.WaitMeansOwnHelpExactlyForOne | Assignment_3/solution/q1.c:173-174 | in every run each student past the wait has been helped itself, if and only if there is no student, or one and ta_available starts at 0 |
| SleepingTaTheorems.StepCloser | Assignment_3/solution/q1.c:77-185 | with somebody seated and not helped, some thread can take a step that brings the next help closer |
| SleepingTaTheorems.HelpIsWithinReach | Assignment_3/solution/q1.c:77-185 | from every such state a schedule of bounded length leads to the first student in line being helped |
| SleepingTaLiveness.TaAdvances | Assignment_3/solution/q1.c:83-130 | while somebody is counted and not helped, each step of the TA brings the next help closer or is it |
| SleepingTaLiveness.EnoughMovesHelpTheFirst | Assignment_3/solution/q1.c:83-130 | every schedule in which the TA makes as many moves as it is away from its next help brings that help, to the first in line |
| SleepingTaLiveness.EveryScheduleRuns | Assignment_3/solution/q1.c:60-72 | every infinite schedule has an execution |
| SleepingTaLiveness.TaEnabledAgain | Assignment_3/solution/q1.c:94-96 | under strong fairness the TA is never blocked for good, on the mutex or on students_waiting |
| SleepingTaLiveness.EverySeatedIsHelped | Assignment_3/solution/q1.c:77-185 | under strong fairness every student seated is helped in the end, in the order of seating |
| SleepingTaLiveness.EveryWaitEnds | Assignment_3/solution/q1.c:172-174 | under strong fairness no student waits on ta_available for ever |
| SleepingTaProgram.WaitingRoom.constructor | Assignment_3/solution/q1.c:30-65 | the initial globals are the model's initial state |
| SleepingTaProgram.WaitingRoom.TaFunction | Assignment_3/solution/q1.c:77-131 | one step of the TA is the model's |
| SleepingTaProgram.WaitingRoom.HelpStudent | Assignment_3/solution/q1.c:96-114 | so are its steps that hold the mutex |
| SleepingTaProgram.WaitingRoom.StudentAlreadyWaiting | Assignment_3/solution/q1.c:188-199 | one iteration of the scan is the model's step |
| SleepingTaProgram.WaitingRoom.StudentFunction | Assignment_3/solution/q1.c:133-185 | one step of a student is the model's |
| SleepingTaProgram.WaitingRoom.TakeSeat | Assignment_3/solution/q1.c:154-179 | so are its steps that hold the mutex |
| SleepingTaProgram.WaitingRoom.Execute | Assignment_3/solution/q1.c:60-72 | any schedule takes the program where it takes the model |
| SleepingTaProgram.RunOffice | Assignment_3/solution/q1.c:36-75 | under any scheduler, with ta_available starting at 1: helped in order of seating, at most 3 behind, only known ids seated, counter in 0..3, asleep only while looking |
| Bank.ReachedStep | Lab_3/solution/part2.c:79-132 | one step of a thread changes exactly the count of the stage it enters |
| Bank.StepKeepsAccounts | Lab_3/solution/part2.c:79-132 | each step keeps the conservation laws: both semaphores and the amount follow from how far the threads have got |
| Bank.StepKeepsInv | Lab_3/solution/part2.c:79-132 | each step also keeps mutual exclusion and the value loaded in the critical section current |
| Bank.MutualExclusion | Lab_3/solution/part2.c:91-123 | at most one thread is in the critical section |
| Bank.EveryRunInRange | Lab_3/solution/part2.c:32-132 | in every interleaving of any number of threads the amount is a multiple of the transaction amount between 0 and the limit |
| Bank.TerminalThreads | Lab_3/solution/part2.c:85-116 | when nothing can move each thread has finished or waits at a semaphore that is 0 |
| Bank.NothingMoves | Lab_3/solution/part2.c:33-36 | with a transaction amount above the limit no thread ever gets past its semaphore |
| Bank.EveryMaximalRunEndsAlike | Lab_3/solution/part2.c:29-132 | every interleaving that cannot go on ends with the same amount: t * min(max(d - w, 0), limit / t) |
| Bank.EveryMaximalRunFinishesIffFits | Lab_3/solution/part2.c:29-132 | all threads finish if and only if deposits cover the withdrawals and the surplus fits below the limit |
| Bank.MovesAreExecuted | Lab_3/solution/part2.c:79-132 | each move of a schedule is exactly one more statement executed |
| Bank.RunsAreBounded | Lab_3/solution/part2.c:79-132 | no interleaving makes more than six moves per thread |
| Bank.EveryRunCanBeCompleted | Lab_3/solution/part2.c:79-132 | every state can be run on to one in which nothing can move |
| BankProgram.Account.constructor | Lab_3/solution/part2.c:26-57 | globals and semaphores start as in the model |
| BankProgram.Account.Deposit | Lab_3/solution/part2.c:79-105 | one step of a depositor is the model's |
| BankProgram.Account.Withdraw | Lab_3/solution/part2.c:107-132 | one step of a withdrawer is the model's |
| BankProgram.Account.Execute | Lab_3/solution/part2.c:39-67 | any schedule takes the program where it takes the model |
| BankProgram.RunThreads | Lab_3/solution/part2.c:18-77 | with seven depositors, three withdrawers and 400: amount in 0..400 at any time, t * min(7 - 3, 400 / t) when nothing can move, and then all threads have finished if and only if t <= 100 |
| Ring.WriteReplaces | Assignment_2/solution/shell.c:171-172 | writing into a full ring drops the oldest entry and appends the new one |
| Ring.WriteAppends | Assignment_2/solution/shell.c:171-178 | writing into a ring with room appends |
| History.ListingNumbersAreTrue | Assignment_2/solution/shell.c:184-217 | each line listed carries its true position in the complete log, newest first |
| History.LogIsWhatWasExecuted | Assignment_2/solution/shell.c:76-116 | the log grows by exactly the commands executed, those repeated by `!!` included |
| History.ShellRepeatsLast | Assignment_2/solution/shell.c:220-237 | in the events of a session each echo is of the last command executed, and that command is executed next |
| History.EchoedIsRepeated | Assignment_2/solution/shell.c:220-237 | the same for any place in the events |
| History.WhatALineAdds | Assignment_2/solution/shell.c:83-114 | what one more line adds to a session: nothing for an empty line and `exit`; for `history` the last min(5, n) of the n commands executed, newest first, with their positions; for `!!` echo and execution of the last one; otherwise its execution |
| History.NothingAfterExit | Assignment_2/solution/shell.c:89-94 | lines after `exit` have no effect |
| History.NewestPlace | Assignment_2/solution/shell.c:233 | the index execute_last_command computes is that of the newest line kept, before and after wrap-around |
| History.HistoryShell.constructor | Assignment_2/solution/shell.c:28-37 | an empty ring for an empty log |
| History.HistoryShell.AddToHistory | Assignment_2/solution/shell.c:163-182 | the ring holds the last min(5, total) commands of the log after each command; nothing is recorded for an empty line, `history` and `!!` |
| History.KeepsAppended | Assignment_2/solution/shell.c:171-181 | recording a command keeps the ring the last min(5, total) lines of the log |
| History.PlaceComputed | Assignment_2/solution/shell.c:198-203 | the index print_history computes is where the i-th oldest line kept is, before and after wrap-around |
| History.PrintedLine | Assignment_2/solution/shell.c:204-215 | the number and text print_history shows for a line are those of the log, on both sides of the switch at 5 commands |
| History.HistoryShell.PrintHistory | Assignment_2/solution/shell.c:185-217 | the loop prints exactly the listing of the log |
| History.HistoryShell.ExecuteLastCommand | Assignment_2/solution/shell.c:220-237 | echoes, records and executes the last command of the log, or reports that there is none |
| History.HistoryShell.HandleLine | Assignment_2/solution/shell.c:83-114 | each line has the effect the log prescribes |
| History.HistoryShell.StartShell | Assignment_2/solution/shell.c:76-116 | the whole loop up to `exit` has the effect the log prescribes |
| History.Session | Assignment_2/solution/shell.c:56-116 | from an empty history, the events of a whole session are those of the shell with an unbounded log, and each echo is of the last command executed |

## Left out

- SleepingTaLiveness.EverySeatedIsHelped: assumes strong fairness of mutex and semaphores, which POSIX does not promise; without it, HelpIsWithinReach and EnoughMovesHelpTheFirst say what remains.
- DiskSstf.Sstf: takes a head and requests whose extent is below INT_MAX; beyond that C's subtraction overflows, or a pending request is as far away as the mark for served ones.
- DiskScheduler.Scan: takes fewer than 1000 requests when the direction is LEFT or RIGHT, as the boundary takes a place of the 1000 in seek_sequence; the other schedulers take whatever fits their buffers.
- DiskSweep.ScanClosedForm: the closed forms of SCAN and C-SCAN are for cylinders and head on the disk; the service orders and totals of the programs are for any.
- Lockstep.LockstepExactlyUnlessSeparated: only for addresses below 65536, since the two programs treat others differently (one cuts them to 16 bits, one rejects them).
- BankProgram.RunThreads: transaction amounts of at least 1; at 0 main divides by zero, below 0 sem_init is given a negative count.
- Totals and counters are unbounded integers; C's int is not modelled beyond the bounds above.
- Files, terminal and mapping: traces, request arrays and the backing store are inputs, what is printed is a result; failures to open them are not modelled.
- The numbers of waiting students and of seconds that q1.c prints beside the ids are not logged; the ids are.
- The head printed before some schedules is not part of the order served; the tracks served are a sequence, not the array seek_sequence.
- qsort is replaced by an insertion sort whose result is copied into the buffer; how qsort works inside is not modelled.
- The sweep loops that assignment5.c repeats are written once (SweepUp, SweepDown and the combinations), and branches and loop bodies of the programs are methods of their own where that keeps a proof small.
- Random times, sleep, usleep, thread creation and joining, the C memory model: steps are sequentially consistent, any schedule is possible, semaphore and mutex calls do not fail.
- The announcement that a student takes a seat is logged together with the write to the chair; the source prints it later in the same critical section.
- The TA's test and update of ta_is_asleep are one step; no other thread uses it.
- Fork, exec and wait of the shell, splitting a line into arguments, the limit of 99 characters and end of input.
- Assignment_4/solution2/Assignment4.c is the same program as assignment4.c in another layout.
- The kernel modules, fork trees and file-status printing are sequences of system calls with no state of their own to keep consistent.
- Lab_4 translates through a fixed table of 8 entries that nothing changes and adds up the numbers in a file; Lab_2 and part1.c of Lab_3 add to one variable under one lock. Neither keeps an invariant beyond that one statement.
- The banker's algorithm and deadlock detection are prose in the notes, without code.
