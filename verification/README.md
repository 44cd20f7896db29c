# A verified model of the paging simulator, the trace tools, the ext2 utilities and the system call interceptor

The project models four independent parts of the repository and proves, for all inputs and all runs, what they do:

* the demand-paging simulator of Assignment2 with its policies (FIFO, CLOCK, LRU, OPT), its swap area and its bitmap, and
  `fastslim.py`, which reduces the traces it reads;
* blocked matrix multiplication (`blocked.c`) against the naive one (`matmul.c`);
* insertion into and removal from ext2 directory blocks (Assignment3);
* the monitoring commands of the system call interceptor (Assignment1), as threads that interleave.

## How the files fit together

| file | what it holds |
|---|---|
| `Options` | optional values |
| `Demand` | demand paging seen through the coremap alone, for any victims |
| `Belady`, `Opt` | optimality of the farthest-next-use rule; what `opt.c` keeps in its table and when it follows the rule |
| `Lists`, `Lru`, `LruList` | the LRU stack, inclusion and monotonicity; the doubly linked list node by node |
| `Fifo`, `Clock`, `ClockRuns`, `Modular` | the cyclic hands; the recursive sweep over REF bits, and whole runs of it |
| `PteWord`, `Bitmap`, `Swap` | page table words, the bitmap in 32-bit words, the swap area |
| `Paging`, `Transparency`, `Runs`, `SwapRuns`, `Simulator` | the simulator: its state as values, invariants of every run, memory transparency, and the program that updates it in place |
| `Policies` | the policies' rules applied to runs of the simulator, and whole runs of their code |
| `FastSlim`, `SlimMisses` | the trace reduction, and when it keeps the misses of LRU |
| `Layout`, `Matrix`, `Multiply` | storage orders, sums, and the loops over arrays |
| `DirRecords`, `DirBlock`, `DirImage` | directory blocks as record lists, as bytes, and as a mounted image that is written in place |
| `Monitor` | the interceptor's table, its two locks and its threads |
| `MonitorDeadlock`, `MonitorRuns` | when the two locks can come free; undisturbed commands, and runs that go wrong |

The state that the programs update in place is held by classes (`Simulator.Sim`, `Swap.SwapArea`, `Bitmap.Map`,
`LruList.FrameList`, `Opt.OptTable`, `Fifo.Hand`, `Clock.ClockHand`, `FastSlim.Reducer`, `Multiply.Multiplier`,
`DirImage.Image`). Their methods are proved against functions on values, and the theorems are about those functions.
The interceptor runs concurrently, so it is a state machine: each step of a thread takes or drops one lock or is one list
operation, and a run is any sequence of such steps.

## Where the code does not do what it says

The model follows the code. Each of these is stated as a theorem, mostly as the exact condition under which the code meets
its promise.

* `pagetable.c:174` overwrites the flag word before line 177 tests `PG_ONSWAP`, so swap is never read. `Runs` proves that
  the run is transparent if and only if every access to a page written earlier is a hit, `SwapRuns.CodeForgetsAWrite`
  gives a run of three references that loses a write, and `SwapRuns.DocumentedIsTransparent` proves the behaviour that the
  comment above `find_physpage` describes: the machine parameter `doc` keeps and tests the old flag. The address check of
  `sim.c:54` never notices: `Runs.CheckAlwaysPasses`.
* `opt.c:46-73` refreshes the next-use entry of a frame one reference late. `Opt` proves what every entry of the table
  holds, the exact condition on next uses under which a choice is right, and a trace on which the program misses five times
  where four are enough.
* `lru.c` leaves `head` on a freed node when the head itself is referenced again, and when the only node is evicted.
  `Lru.CodeListSoundIff` says exactly which traces it survives. The traces that `fastslim.py` prints are among them.
* `clock.c:31-39` advances the hand again at every level of the recursion, so that it ends just past the victim only when no
  frame was passed over or all of them (`Clock.HandPastVictimIff`); line 49 marks the frame under the hand rather than the
  accessed one.
* `fastslim.py:81-82` marks an item that is not in the buffer, so nothing buffered is ever marked and a dropped reference is
  never printed later; nor is the last buffer (`FastSlim.PrintedIsKeptIff`). Even with that counted in,
  `SlimMisses.ReductionKeepsMissesIff` says that the reduction keeps the misses of LRU if and only if every dropped reference
  repeats the page just before it, and `FastSlim.ReductionChangesMisses` gives a trace where they differ. With a `buffersize`
  of zero or less the buffer takes in every page and nothing is printed (`FastSlim.NoRoomPrintsNothing`).
* `helper.c:182-183` reserves for a symbolic link the length of its name only. `DirBlock.SplitStaysInsideIff` says exactly
  when its bytes stay within the record that is split, `DirRecords.SymlinkTooSmall` and `DirRecords.SymlinkTooLong` give two
  that do not, and `DirBlock.TerminatorOverruns` what becomes of the next record.
* `name_len` is one byte (`DirRecords.InsertedIsFoundIff`), and `ext2_rm.c` doubles the length of a record that is first in
  its block (`DirBlock.DoubledTilesIff`).
* `interceptor.c:152` ends the sweep over the lists one row early, and a stop clears the flag of a list that still has
  processes (lines 514-521). `MonitorRuns` has runs from the initial state that show both.
* A start that gets no memory has set the flag before (`interceptor.c:458-464`), and leaves it with nobody listed
  (`MonitorRuns.CommandMeans`).
* The two locks of the interceptor are taken in two orders. `MonitorDeadlock.DeadlockIff` says exactly in which reachable
  states they can still come free, and `MonitorRuns.DeadlockIsReachable` that two starts lead to one where they cannot.
* `swap.c:34` rounds to no words for the last 31 sizes; a byte offset of swap fits in an `int` for 2^27 slots, which 36-bit
  addresses never exceed (`Paging.LeastFreeBelow`); a frame number fits in a page table word below 2^20.

## Model

| member | source | states |
|---|---|---|
| Belady.RuleIsOptimal | Assignment2/opt.c:14-40 | Whoever evicts a page whose next use is farthest has, after every prefix of every trace and for every number of frames, no more misses than any other choice of victims. |
| Opt.ChoiceIsFarthest | Assignment2/opt.c:18-40 | On an exact table the choice of `opt_evict` (the first page never used again, else the largest next use) is a page whose next use is farthest. |
| Opt.OptimalOnExactTables | Assignment2/opt.c:14-40 | So demand paging that asks `opt_evict` with exact tables misses no more than with any other victims. |
| Opt.ExactRunExists | Assignment2/opt.c:14-40 | Such a run exists for every trace and every positive number of frames. |
| Opt.TableLagsOneStep | Assignment2/opt.c:46-73 | After `opt_ref` at time t-1 every entry but the one of the frame used then is the exact next use. |
| Opt.StaleEntry | Assignment2/opt.c:46-73 | The remaining entry is the next use, from t-1 on, of what that frame held before the reference; with `TableLagsOneStep` the whole table is known. |
| Opt.StaleUseIs | Assignment2/opt.c:46-73 | By kind of reference that is: the hit itself after a hit, none after a load into a free frame, and after an eviction the next use of the page that is gone. |
| Opt.LastIsChosenIff | Assignment2/opt.c:18-40 | `opt_evict` gives up the page referenced just before exactly when the stale entry is later than the next use of every other page, or, when several are never used again, its frame is the first of them. |
| Opt.LaggingChoiceIsFarthestIff | Assignment2/opt.c:18-40 | On the table as the program keeps it the choice is farthest exactly under a condition on next uses alone: if the stale entry is later than the next use of every other page, no other page may be used later than the one referenced just before; if not, some other page must be used as late as that one. |
| Opt.RightAfterHitIff | Assignment2/opt.c:18-73 | After a hit, with two frames or more, the page just hit is never given up, and the choice is right exactly when another page is next used no earlier. |
| Opt.CodeFollowsRuleIff | Assignment2/opt.c:18-73 | The program follows the optimal rule exactly when that condition holds at each of its evictions; then its miss count is least. |
| Opt.LagCanLose | Assignment2/opt.c:46-73 | With two frames and pages 0 1 2 1 0 the program misses five times, other victims four times. |
| Opt.OptTable.constructor | Assignment2/opt.c:133-137 | The table starts with -1 in every entry. |
| Opt.OptTable.Evict | Assignment2/opt.c:18-40 | The loop returns the first used frame with entry -1, or else the first of the largest entries. |
| Opt.OptTable.Ref | Assignment2/opt.c:46-73 | Records the frame in the trace item and rewrites only the entry of the previous item's frame: its next use from now on, or -1. |
| Policies.ReplayOpt | Assignment2/opt.c:18-137 | On a whole trace, with any further addresses behind it in the list, the victims, the table and the recorded frames of the program are those of the lagging run that the theorems are about. |
| Policies.OptimalInSimulator | Assignment2/pagetable.c:28-68 | The optimality theorem for two runs of the whole simulator over the same pages: the one that follows the rule misses no more. |
| Lru.LruKeepsTopOfStack | Assignment2/lru.c:19-82 | With m frames, LRU holds at every step exactly the m topmost pages of the recency stack. |
| Lru.StackMembers | Assignment2/lru.c:44-82 | The recency stack holds exactly the pages referenced so far. |
| Lru.StackByRecency | Assignment2/lru.c:44-82 | It is ordered by strictly decreasing last use. |
| Lru.LruInclusion | Assignment2/lru.c:19-82 | At every step the pages resident with fewer frames are resident with more. |
| Lru.LruMissesMonotone | Assignment2/lru.c:19-82 | More frames never mean more LRU misses. |
| Lru.LruVictimIsOldest | Assignment2/lru.c:15-38 | The frame evicted holds a page last used strictly before the page of any other frame. |
| Lru.CodeListSoundIff | Assignment2/lru.c:31-35 | The list is the recency order of the frames in use as long as at most one reference was made, or there are two frames or more and no page came twice in a row; otherwise freed memory has been touched. |
| Lru.CodeListNext | Assignment2/lru.c:53-80 | What one more reference makes of a sound list, and when it breaks it. |
| LruList.FrameList.constructor | Assignment2/lru.c:88-91 | The list starts empty. |
| LruList.FrameList.Evict | Assignment2/lru.c:19-38 | Walks to the last node, frees it, unlinks it and returns its frame; with one node `head` is left dangling. |
| LruList.FrameList.Unlink | Assignment2/lru.c:53-65 | The three statements take exactly that node out, and the links of all others stay consistent. |
| LruList.FrameList.Push | Assignment2/lru.c:72-80 | Puts a new node in front, and touches freed memory exactly when `head` is dangling. |
| LruList.FrameList.Ref | Assignment2/lru.c:44-82 | Moves the frame to the front of the list; crashes exactly when its node was the head. |
| Policies.ReferLru | Assignment2/pagetable.c:37-39 | One reference with the list: the victim, if one is needed, is the last frame, and the list is what the abstract list becomes. |
| Policies.ReplayLru | Assignment2/lru.c:19-82 | On a whole trace the nodes give LRU victims, the list represents the recency order, and freed memory is touched exactly on the traces named above. |
| Policies.LruMonotoneInSimulator | Assignment2/pagetable.c:28-68 | Inclusion and monotonicity for two runs of the whole simulator with different memory sizes. |
| Fifo.Hand.Evict | Assignment2/fifo.c:19-28 | Returns the frame under the hand and moves the hand one on, cyclically. |
| Fifo.FifoKeepsQueue | Assignment2/fifo.c:19-28 | After every access the load times, read cyclically from the hand, strictly increase. |
| Fifo.FifoVictimIsOldest | Assignment2/fifo.c:15-28 | The frame evicted was loaded before every other. |
| Policies.ReplayFifo | Assignment2/fifo.c:19-44 | On a whole trace the hand of the program is the hand of the model, and its victims follow it. |
| Clock.SweepUnfolds | Assignment2/clock.c:22-40 | A recursive call from a referenced frame extends the sweep by that frame and moves the hand once more. |
| Clock.HandPastVictimIff | Assignment2/clock.c:31-39 | The hand ends one past the victim exactly when no frame was passed over, or all of them. |
| Clock.SweepServes | Assignment2/clock.c:19-41 | The victim is frame (h + d) mod memsize for the d frames passed over, the hand is as said below, and exactly the bits passed over are clear. |
| Clock.RefsAfterFind | Assignment2/pagetable.c:190-203 | A reference that marks its page and no other sets one bit among those of the resident pages, also when the page has just replaced another. |
| Clock.HandAndCoreAfter | Assignment2/clock.c:19-41 | One reference by the d set bits from the hand on: a page is given up only if it has to be, that of frame (h + d) mod memsize, and only then the hand moves, to (h + 2d + 1) mod memsize. |
| Clock.BitsAfter | Assignment2/clock.c:47-51 | After a reference the bits under the hand and of the page's own frame are set; if a page was given up, those of the frames passed over are clear otherwise; every other bit is as it was. |
| Clock.ClockHand.Evict | Assignment2/clock.c:19-41 | Terminates; returns the first frame from the hand whose REF bit is clear (the hand's own after a full round); clears exactly the d bits passed over; leaves the hand at (h + 2d + 1) mod memsize. |
| Clock.ClockHand.Ref | Assignment2/clock.c:47-51 | Sets the REF bit of the page under the hand and changes nothing else of the machine. |
| Clock.ClockHand.PickVictim | Assignment2/pagetable.c:37-39 | The victim is frame (h + d) mod memsize; hand and bits change only for a missing page when no frame is free. |
| Clock.ClockHand.FindPhyspage | Assignment2/pagetable.c:150-204 | With CLOCK plugged in, the simulator makes the same step as with that victim given, coremap, REF bits and hand become those of the next turn, and the bit under the hand is set; no entry pointer of a free frame is followed. |
| Clock.ClockHand.AccessMem | Assignment2/sim.c:49-63 | One access with CLOCK: the abstract access with the victim CLOCK names, then coremap, REF bits and hand of the next turn. |
| ClockRuns.ReplayClock | Assignment2/sim.c:66-83 | On a whole trace coremap, REF bits and hand of the program are those of the model, and the simulator is in the state of the run with those victims, to which all run theorems apply. |
| ClockRuns.LastPageSpared | Assignment2/clock.c:19-51 | In every run the victim is a frame with its bit clear, and not the page referenced just before, unless all bits are set. |
| ClockRuns.RunBits | Assignment2/clock.c:19-51 | At every reference of a run: where the hand goes, which frame is given up, and what each bit is afterwards. |
| PteWord.FlagsAreIndependent | Assignment2/pagetable.h:13-16 | Setting or clearing a flag of the word changes that flag, no other flag, and not the frame number. |
| PteWord.WordLayout | Assignment2/pagetable.h:10-16 | The frame number is from bit 12 on, ONSWAP at bit 3, REF at bit 2, DIRTY at bit 1, VALID at bit 0; reading gives each back, and setting a clear one adds its place value. |
| PteWord.ShiftedFits | Assignment2/pagetable.c:174-174 | `frame << PAGE_SHIFT` keeps the frame number exactly when it is below 2^20, and leaves all flags clear. |
| Bitmap.BitAfter | Assignment2/swap.c:100-124 | Setting or clearing one bit of a word changes that bit alone. |
| Bitmap.WordsCover | Assignment2/swap.c:34-34 | The words cover every bit number exactly for sizes up to 0xffffffe0. |
| Bitmap.OneBitChanged | Assignment2/swap.c:89-124 | One bit changed in its word changes one number of the set and keeps the padding bits set. |
| Bitmap.Map.constructor | Assignment2/swap.c:28-62 | The map is well formed, with all padding bits set and the empty set, exactly for sizes up to 0xffffffe0; the assertions inside hold. |
| Bitmap.Map.Alloc | Assignment2/swap.c:64-87 | Takes the least free number, or fails exactly when all are taken; neither assertion inside can fail. |
| Bitmap.Map.Mark | Assignment2/swap.c:100-111 | Adds the number to the set. |
| Bitmap.Map.Unmark | Assignment2/swap.c:113-124 | Removes it. |
| Bitmap.Map.IsSet | Assignment2/swap.c:127-135 | Says whether the number is in the set; padding numbers read as used. |
| Swap.OffsetsExactIff | Assignment2/swap.c:234-234 | All slots have their exact byte offsets if and only if there are at most 2^27 of them. |
| Swap.SwapArea.constructor | Assignment2/swap.c:151-168 | For every size that is an unsigned int the swap area starts with no slot taken and nothing written; it is well formed exactly for sizes up to 0xffffffe0. |
| Swap.SwapArea.WriteOut | Assignment2/swap.c:222-256 | A page without a slot gets the least free one, or none when all are taken; the data is at the offset returned, a negative offset writes nothing, and nothing else changes. |
| Swap.PageOutMeans | Assignment2/swap.c:222-256 | A page-out fails for a position that cannot be sought and for a page without a slot when none is free; the file changes at the position returned only; a slot is taken exactly for a page without one, the least free. |
| Swap.PageInAfterPageOut | Assignment2/swap.c:188-256 | A page-in from the offset returned gives back what was written out, and from any other slot that was written what it gave before. |
| Swap.HolesReadAsZeros | Assignment2/swap.c:188-213 | Where nothing was written a page-in reads zeros before written data, and leaves the frame as it was behind it and at a negative position. |
| Swap.SwapArea.OutAndIn | Assignment2/swap.c:188-256 | A client that writes a page out and reads it in again, in place, gets back what it wrote unless the page-out failed. |
| Paging.FindKeepsFrames | Assignment2/pagetable.c:150-204 | After any access, for any victim, valid entries and used frames are mutual inverses, and the page is in the frame returned. |
| Paging.FindTouches | Assignment2/pagetable.c:28-68 | The coremap changes as in plain demand paging, and a miss is counted exactly for an absent page. |
| Paging.FindKeepsCounts | Assignment2/pagetable.c:169-188 | Hits and misses add up to references, and misses to evictions plus frames in use. |
| Paging.FindCounts | Assignment2/pagetable.c:41-60 | One access adds one reference, one hit or miss by whether its page is resident, and, if a missing page meets a full memory, one dirty or clean eviction by the dirty flag of the page given up. |
| Paging.FindDirties | Assignment2/pagetable.c:174-197 | Kinds M and S set the dirty flag of their page; any other kind leaves it as a hit found it, or clear after a load; no other page's flag changes. |
| Paging.AccessCountsWrite | Assignment2/sim.c:58-61 | Kinds M and S add one to the version in the frame of their page; after any other kind memory is as `find_physpage` left it. |
| Paging.PageOutKeepsSlots | Assignment2/pagetable.c:49-59 | For any swap size: after a page-out a slot is taken exactly if one entry owns it, no two entries share one, offsets are in range, and no other page's stored data changes. |
| Paging.LeastFreeBelow | Assignment2/swap.c:229-234 | A page without a slot gets one whose number is below the number of pages, so that 36-bit addresses have exact byte offsets in a swap area of any size. |
| Paging.ValidIffResident | Assignment2/pagetable.c:63-65 | An entry is valid exactly for a resident page, and names its frame. |
| Transparency.AccessIsTransparent | Assignment2/sim.c:49-63 | An access that does not lose its page sees what a plain map from pages to contents holds, and stays in step with it. |
| Transparency.LossIsVisible | Assignment2/pagetable.c:174-183 | One that loses its page sees version 0 where the map has counted a write. |
| Runs.InvariantsHold | Assignment2/pagetable.c:28-204 | At every step of every run, for any policy: frame bijection and counters, and slot ownership for any swap size while pages or slots are no more than have exact byte offsets. |
| Runs.RunIsDemandPaging | Assignment2/pagetable.c:28-68 | The simulator's coremap and miss count are those of plain demand paging over the page sequence with the same victims. |
| Runs.CountersAre | Assignment2/pagetable.c:46-51 | After every prefix of every run: as many references as accesses, hits and misses adding up to them, and as many dirty and clean evictions as pages were given up that had, and had not, been stored to or modified since their load. |
| Runs.DirtyMeansWritten | Assignment2/pagetable.c:194-197 | At every step DIRTY is set exactly for the pages stored to or modified since their last load. |
| Runs.WritesToNext | Assignment2/sim.c:58-61 | The writes that the theorems on contents count are the accesses of kinds M and S. |
| Runs.IdealCountsWrites | Assignment2/sim.c:58-61 | The plain map shows a page's own address and the number of earlier writes to it. |
| Runs.TransparentIffNothingLost | Assignment2/sim.c:49-63 | Every access of a page-aligned run sees its address and the number of earlier writes to its page, if and only if no access loads a page whose entry is still dirty (and, as documented, not on swap). |
| Runs.TransparentIffWrittenPagesHit | Assignment2/pagetable.c:170-184 | As the code is, for any swap size, and by the accesses and the resident pages alone: a page-aligned run is transparent if and only if every access to a page written earlier is a hit. |
| Runs.CheckAlwaysPasses | Assignment2/sim.c:49-56 | As the code is, the address check passes at every access of every page-aligned run, those that lose writes included, so that no loss is ever reported. |
| SwapRuns.SlotHoldsLatestPageOut | Assignment2/swap.c:222-256 | At every step of every run the slot of an entry holds what was last written out for its page. |
| SwapRuns.SlotRemains | Assignment2/swap.c:229-233 | While there are as many slots as written pages, a written page without one finds one. |
| SwapRuns.DocumentedIsTransparent | Assignment2/pagetable.c:137-145 | With the flag tested as documented and a slot for each page written to, every access of every page-aligned run sees the ideal contents, for any memory size and any policy. |
| SwapRuns.CodeLoadsZero | Assignment2/pagetable.c:174-183 | As the code is, a page that is loaded shows version 0. |
| SwapRuns.CodeForgetsAWrite | Assignment2/pagetable.c:174-183 | One frame and three references lose a write. |
| Simulator.Sim.constructor | Assignment2/sim.c:119-125 | For all sizes: the machine starts empty, its memory arbitrary, and represents a state exactly when frame numbers fit in twenty bits and the bitmap covers the swap area. |
| Simulator.Sim.EvictFrame | Assignment2/pagetable.c:41-60 | On words and arrays, exactly the abstract eviction: counters, write-out of a dirty page, flags. |
| Simulator.Sim.AllocateFrame | Assignment2/pagetable.c:28-68 | Takes the lowest free frame, or the victim's after evicting it. |
| Simulator.Sim.FillFrame | Assignment2/pagetable.c:173-183 | Overwrites the word, after which the swap flag is never found set. |
| Simulator.Sim.LoadPage | Assignment2/pagetable.c:170-184 | A miss counts, allocates and fills as the abstract load does. |
| Simulator.Sim.MarkAccessed | Assignment2/pagetable.c:190-203 | Sets VALID and REF, DIRTY for a write, and returns the frame number in the word. |
| Simulator.Sim.FindPhyspage | Assignment2/pagetable.c:150-204 | The words, arrays and counters step as the abstract state does. |
| Simulator.Sim.AccessMem | Assignment2/sim.c:49-63 | Reports whether the recorded address matches, and counts the write in place. |
| Simulator.Sim.ReplayTrace | Assignment2/sim.c:66-83 | The program run over a trace, with any swap size, ends in the state of the modelled run, to which all run theorems apply; over page-aligned addresses it prints no error. |
| FastSlim.OutputPhases | Assignment2/traceprogs/fastslim.py:80-87 | What is printed comes in phases of exactly `buffersize` distinct pages, for any `buffersize`. |
| FastSlim.OutputChain | Assignment2/traceprogs/fastslim.py:62-88 | The references kept are a subsequence of the trace in which no two neighbours share a page. |
| FastSlim.KeptAreNotDropped | Assignment2/traceprogs/fastslim.py:77-88 | What is kept are exactly the references that are not dropped, in order. |
| FastSlim.PrintedIsKeptIff | Assignment2/traceprogs/fastslim.py:77-88 | What is printed is all that is kept if and only if the trace is empty: the last buffer is never printed. |
| FastSlim.NoRoomPrintsNothing | Assignment2/traceprogs/fastslim.py:80-87 | With a `buffersize` of zero or less every page referenced stays in the buffer, and nothing is printed. |
| FastSlim.BufferIsTopOfStack | Assignment2/traceprogs/fastslim.py:80-87 | For any `buffersize` the buffered pages are exactly the most recently used ones, as many as the buffer holds. |
| FastSlim.DroppedIsHit | Assignment2/traceprogs/fastslim.py:80-82 | Every reference dropped is a hit when the unreduced trace runs under LRU with at least `buffersize` frames, or, for any `buffersize`, with at least as many as the buffer holds pages then. |
| SlimMisses.ReductionKeepsMissesIff | Assignment2/traceprogs/fastslim.py:77-88 | With the last buffer counted in, the reduction keeps the LRU misses, for every number of frames and after every prefix, if and only if every reference it drops is to the page referenced just before; one frame and the whole trace decide it. |
| SlimMisses.RunsMissAlike | Assignment2/traceprogs/fastslim.py:77-88 | Then LRU runs over the full and the reduced trace miss equally often with any number of frames. |
| SlimMisses.OneEntryKeepsMisses | Assignment2/traceprogs/fastslim.py:80-87 | A `buffersize` of one always keeps them. |
| SlimMisses.PrintedMissesIff | Assignment2/traceprogs/fastslim.py:44-88 | What is printed has the one-frame misses of the full trace only if that is empty. |
| SlimMisses.StackMissesAre | Assignment2/lru.c:19-82 | The misses these theorems count by the recency stack are those of every LRU run. |
| FastSlim.ReductionChangesMisses | Assignment2/traceprogs/fastslim.py:80-82 | An input where they are not: A B A C D A with `buffersize` 2 and three frames misses four times under LRU, its reduction, last buffer included, five times. |
| FastSlim.PrintedTraceIsSafe | Assignment2/lru.c:44-82 | The linked list of `lru.c` survives every printed trace, given two frames. |
| FastSlim.SortedStays | Assignment2/traceprogs/fastslim.py:48-48 | The sort by time stamp moves nothing in a list that is in order. |
| FastSlim.SortSorts | Assignment2/traceprogs/fastslim.py:48-48 | The sort gives a list in order with the same items. |
| FastSlim.Reducer.EmitMarked | Assignment2/traceprogs/fastslim.py:44-52 | Prints the waiting items and all marked ones of the buffer, each once, in order, and clears list and buffer; nothing is added when no buffered item is marked. |
| FastSlim.Reducer.See | Assignment2/traceprogs/fastslim.py:77-88 | One reference updates buffer, list and output as the model does, with no buffered item marked. |
| FastSlim.Reduce | Assignment2/traceprogs/fastslim.py:62-88 | The main loop prints the first references of each full phase, in trace order. |
| Matrix.NaiveBySums | Assignment2/traceprogs/matmul.c:136-146 | The naive sum is the last of any partial sums that start at zero and add, one by one, the products of the row of the first factor with the column of the second. |
| Matrix.SameSums | Assignment2/traceprogs/blocked.c:199-203 | For every element the blocked sum after kb blocks and k products is the naive sum after kb * b + k products, for any addition and multiplication. |
| Multiply.Multiplier.constructor | Assignment2/traceprogs/blocked.c:92-104 | A block order that divides the matrix order gives n / b blocks and three new, different arrays. |
| Multiply.Multiplier.ZeroC | Assignment2/traceprogs/blocked.c:172-176 | Sets exactly one block of C to zero and the pointer to its start. |
| Multiply.Multiplier.MultAdd | Assignment2/traceprogs/blocked.c:193-204 | Adds to each element of the block the products of one pair of blocks, in order, and leaves the rest of C. |
| Multiply.Multiplier.BlockedMatMult | Assignment2/traceprogs/blocked.c:214-223 | Every element of C has its full blocked sum. |
| Multiply.ToBlocked | Assignment2/traceprogs/blocked.c:249-279 | The pointer walk leaves the array in blocked storage of the same matrix. |
| Multiply.FromBlocked | Assignment2/traceprogs/blocked.c:290-319 | The walk back leaves the matrix whose blocked storage the array was. |
| Multiply.StorageRoundTrip | Assignment2/traceprogs/blocked.c:249-319 | A matrix is determined by its blocked storage, so going there and back restores it. |
| Matrix.StoredByRowAndColumn | Assignment2/traceprogs/blocked.c:249-279 | In blocked storage row bi * b + i, column bj * b + j is at place (bi * nb + bj) * b * b + i * b + j. |
| Multiply.MatMult | Assignment2/traceprogs/matmul.c:136-146 | The triple loop gives each element its naive sum. |
| Multiply.BlockedProduct | Assignment2/traceprogs/blocked.c:107-116 | Storing both factors blocked, multiplying and storing back gives in every cell the naive product, for any block order that divides and any arithmetic. |
| Multiply.Product | Assignment2/traceprogs/blocked.c:92-120 | A client that sets up the matrices, fills in two factors and calls it gets in every cell their naive product. |
| DirRecords.RoundUp | Assignment3/helper.c:79-82 | The next multiple of four that is strictly larger. |
| DirRecords.InsertIs | Assignment3/helper.c:189-203 | The first record with enough room, by lengths in bytes, is split: it keeps its inode, type and name with its own length, the new record follows with the rest, and all others stay. |
| DirRecords.InsertFailsIff | Assignment3/helper.c:182-193 | There is no insertion exactly when no record has that room: 4 * ((8 + own) / 4) + 4 for its own name and 4 * ((18 + new) / 4) + 4 for the new one, or just the length of the name of a symbolic link. |
| DirRecords.InsertWellFormed | Assignment3/helper.c:180-208 | A successful insertion keeps the total length, and a well-formed block if header, name and terminator of the new record stay within the split one; by lengths alone exactly when header and recorded name fit. |
| DirRecords.NewSizeSuffices | Assignment3/helper.c:182-186 | For all but symbolic links header, name and terminator stay within the rest of the split record. |
| DirRecords.SymlinkTooSmall | Assignment3/helper.c:182-183 | A symbolic link can be given a record that does not hold its header and name. |
| DirRecords.SymlinkTooLong | Assignment3/helper.c:182-198 | Another one, in a record of 24 bytes, leaves all lengths well formed and yet its terminator falls on the next record. |
| DirRecords.InsertedIsFoundIff | Assignment3/helper.c:199-199 | When the new record stays within the split one, its name is found with its inode exactly when its length fits in a byte. |
| DirRecords.LookupAfterInsert | Assignment3/helper.c:193-203 | When the new record stays within the split one: a lookup of the name as recorded finds the new record unless one of that name stands before it, and every other lookup is as before. |
| DirRecords.LinkedLookups | Assignment3/helper.c:180-208 | The same for lookups over all directory blocks, where an earlier block also goes before. |
| DirRecords.RemoveUndoesInsert | Assignment3/ext2_rm.c:81-85 | Inserting a fresh name, in a record that stays within the split one, and removing it restores the records of the block. |
| DirRecords.RemoveIs | Assignment3/ext2_rm.c:81-84 | The first record of the name is gone, the one before it has both lengths, and all others stay. |
| DirRecords.FindIs | Assignment3/helper.c:285-295 | A lookup finds the first record of the name. |
| DirRecords.FindsNothingIff | Assignment3/helper.c:285-297 | And nothing exactly when there is none. |
| DirRecords.RemoveKeepsTotalIff | Assignment3/ext2_rm.c:81-84 | A removal keeps the total length exactly when the name is not that of the first record. |
| DirRecords.RemoveAfterOthers | Assignment3/ext2_rm.c:77-85 | The removal leaves the lookup of every other name. |
| DirRecords.UnlinkedMeans | Assignment3/ext2_rm.c:75-96 | Over all blocks: not found exactly when no block has the name; refused exactly when the first record of that name is neither a file nor a link; blocks change only otherwise, and then only the first that has the name. |
| DirRecords.UnlinkUndoesCreateIff | Assignment3/ext2_rm.c:77-87 | Over all directory blocks: a creation that fits, under a name of less than 256 bytes that its block lacks, is undone by the unlink with every block as before, if and only if it was of a file or a link and no earlier block holds the name. |
| DirRecords.UnlinkTakesTheFirst | Assignment3/helper.c:278-298 | If an earlier block holds the name, the search by name alone removes that record instead. |
| DirBlock.SplitIsInsert | Assignment3/helper.c:188-207 | For every mode: if the new record stays within the one that is split, the bytes `create_link` writes leave a block that tiles again and holds exactly the inserted records. |
| DirBlock.SplitStaysInsideIff | Assignment3/helper.c:193-201 | Every byte `create_link` writes is one of the record it splits if and only if that record has room for what it keeps, nine bytes and the name. |
| DirBlock.SlotIsSplit | Assignment3/helper.c:189-206 | The slot found over bytes is the record that the list splits, and the new one stays inside it as bytes exactly when it does in the list. |
| DirBlock.TerminatorOverruns | Assignment3/helper.c:198-198 | If the name ends where the split record does, the terminator clears the low byte of the next inode number. |
| DirBlock.NoSlotNoInsert | Assignment3/helper.c:207-207 | Where the walk finds no room there is none. |
| DirBlock.MergeIsRemove | Assignment3/ext2_rm.c:81-85 | The bytes the unlink writes leave a block that tiles again and holds exactly the remaining records. |
| DirImage.CutBytes | Assignment3/ext2_rm.c:81-85 | The length before becomes the sum of both, the inode number zero, and every other byte is as it was. |
| DirBlock.DoubledTilesIff | Assignment3/ext2_rm.c:81-85 | The unlink of a record that is first in its block leaves the block tiled exactly when a record, or the block, ends at twice its length; and the name is still there. |
| DirBlock.TilesTotal | Assignment3/helper.c:204-206 | The records of a tiled stretch take up exactly its bytes. |
| DirBlock.LittleEndian | Assignment3/helper.c:132-132 | An inode number is read least significant byte first. |
| DirBlock.FoundIsFind | Assignment3/helper.c:285-296 | The walk by name over bytes finds the first record of that name. |
| DirBlock.BeforeIsPre | Assignment3/helper.c:261-274 | The walk of `find_pre_pos` returns the record before it. |
| DirImage.Image.FindDirBlockPos | Assignment3/helper.c:125-137 | The first directory block that starts with the inode number and the bytes of ".", if there is one, whatever the other blocks start with. |
| DirImage.ParentIs | Assignment3/helper.c:125-137 | The same by bytes: the block found starts so and no earlier one does. |
| DirImage.Image.PutRecord | Assignment3/helper.c:197-201 | Writes header, name and terminator of the new record and no other byte. |
| DirImage.Image.SplitAt | Assignment3/helper.c:194-201 | For every mode: writes the length of the split record and header, name and terminator of the new one, and no other byte. |
| DirImage.Image.FindSlot | Assignment3/helper.c:187-206 | The walk ends, at the first record with room or at the end of the block. |
| DirImage.Image.LinkIn | Assignment3/helper.c:187-207 | For a given block: the slot is the first record with room, and bytes and records become those of the split; nothing changes exactly when there is no such record. |
| DirImage.Image.CreateLink | Assignment3/helper.c:180-208 | In place, for every mode: the block is the first that starts with the parent's inode number and ".", and without one the position is null; without a record with room, and only then, it fails and no byte changes; if the new record ends behind the image (a symbolic link can) so do the writes; otherwise the bytes of the split are written, and if they stay within the split record (always, but for symbolic links) that block gets the inserted records and no other block changes. |
| DirImage.Image.IsNamed | Assignment3/helper.c:289-289 | The comparison by `strncmp` and length holds exactly for the recorded name. |
| DirImage.Image.FindDirEntry | Assignment3/helper.c:278-298 | The first record of that name over all directory blocks, or none. |
| DirImage.Image.FindPrePos | Assignment3/helper.c:254-276 | The record before it in the same block, or the record itself when it is the first. |
| DirImage.Image.Merge | Assignment3/ext2_rm.c:82-85 | The record before, which for a first record is that record, takes over the length, the inode becomes zero, and no other byte changes. |
| DirImage.Image.LookUp | Assignment3/ext2_rm.c:74-93 | The outcome, and for a file or link its position and that of the record before it. |
| DirImage.Image.Unlink | Assignment3/ext2_rm.c:74-96 | In place: not found exactly when no block has the name; then, and for a directory, nothing changes; of a file or link it is the first record of that name over all blocks, and if that is not first in its block it goes, exactly its record, and every block stays tiled; if it is first its length doubles and the inode is zero. |
| DirImage.Image.CreateAndUnlink | Assignment3/ext2_rm.c:74-96 | In place: a client that creates a file or link that fits, under a name that its block and the earlier ones lack, and unlinks it, has the records of every block again. |
| Monitor.DroppedAllOk | Assignment1/interceptor.c:147-176 | In a list without duplicates `del_pid` removes what `del_pid_sysc` would. |
| Monitor.StepAdds | Assignment1/interceptor.c:96-110 | A list gains a pid only by the insertion step of a thread that asked for that pid. |
| Monitor.StepKeeps | Assignment1/interceptor.c:252-543 | Every step of every thread keeps lock discipline, sound rows, the absence of checked pids, and the progress of exit sweeps. |
| Monitor.StartMeans | Assignment1/interceptor.c:450-467 | The two writing steps of a start, whatever other threads do in between: the flag changes nobody's logging, and the insertion, if there is memory, adds exactly its process to those logged. |
| Monitor.StopMeans | Assignment1/interceptor.c:514-526 | The two writing steps of a stop, whatever other threads do in between: after the flag exactly the listed processes are logged, and the deletion takes away exactly its process unless everybody is logged. |
| Monitor.ClearMeans | Assignment1/interceptor.c:534-541 | The deciding step of a stop for all: with flag two nobody is logged or listed afterwards; otherwise it is refused and nothing changes. |
| Monitor.AllFlagMeans | Assignment1/interceptor.c:473-483 | That of a start for all: with the flag clear everybody is logged afterwards; otherwise it is refused and nothing changes. |
| Monitor.RefusedIff | Assignment1/interceptor.c:364-366 | A command is refused at once exactly when its system call is 0 or not in the table. |
| Monitor.StopKeepsOthersIff | Assignment1/interceptor.c:514-521 | The flag write of a stop leaves the logging of all other processes alone exactly when not everything was being logged. |
| MonitorRuns.StopSilencesOthers | Assignment1/interceptor.c:514-526 | It happens: a run from the start in which everybody is logged before a stop of one process, and nobody after it. |
| Monitor.StopFlagRightIff | Assignment1/interceptor.c:514-526 | The deletion leaves a flag that says whether processes are listed exactly when it finds it one, which the stop has made of a two, or its process is the only one listed. |
| MonitorRuns.StopClearsTheFlag | Assignment1/interceptor.c:514-521 | It happens: a run that starts two processes and stops one leaves the other listed and the flag clear. |
| Monitor.ListsStayDuplicateFree | Assignment1/interceptor.c:440-470 | After any interleaving of any commands of any number of threads no list holds a pid twice, and `listcount` is its length. |
| Monitor.InsertionIsExclusive | Assignment1/interceptor.c:446-467 | One thread at a time is between the check and the insertion, although it drops one of its locks, and its pid is still absent. |
| Monitor.ExitForgetsLastRowIff | Assignment1/interceptor.c:147-176 | An exiting pid is in no list after its sweep exactly when it is not in the last one, which the sweep leaves out. |
| MonitorRuns.ExitForgetsLastRow | Assignment1/interceptor.c:147-176 | It happens: a run in which a process listed for the last system call exits and is still listed there after its sweep. |
| MonitorRuns.RunsUntil | Assignment1/interceptor.c:252-543 | A thread that nobody disturbs gets on with its command, and the state it leads to is reachable. |
| MonitorRuns.CommandAlone | Assignment1/interceptor.c:398-550 | The steps of every undisturbed command but exit come to one answer and one change of its row. |
| MonitorRuns.CommandMeans | Assignment1/interceptor.c:398-550 | Which answers there are, exactly when each command succeeds, that Busy and Invalid change nothing, and who is listed and logged and what the flag is after success; a start without memory sets the flag all the same. |
| MonitorRuns.StopAllUndoesStartAll | Assignment1/interceptor.c:473-543 | A run: everybody is logged between a start for all and a stop for all, and afterwards the table is as before. |
| MonitorRuns.ExitRuns | Assignment1/interceptor.c:252-263 | After an undisturbed exit the process is gone from every row but the last, with count and flag put right, and nothing else has changed. |
| MonitorDeadlock.DoomedStays | Assignment1/interceptor.c:443-464 | If one thread has the table lock and will want the list lock, and another has the list lock and wants the table lock, no step of any thread changes either. |
| MonitorDeadlock.DeadlockIff | Assignment1/interceptor.c:443-543 | In any state that any commands of any number of threads lead to, some further steps set both locks free if and only if there is no such pair. |
| MonitorDeadlock.OneAtATime | Assignment1/interceptor.c:440-543 | While at most one thread is inside the start or stop of a single process, the locks can always come free. |
| MonitorDeadlock.AllWaitingIsDoomed | Assignment1/interceptor.c:443-464 | When every thread that is not idle waits for a lock, it is because of such a pair. |
| MonitorRuns.DeadlockIsReachable | Assignment1/interceptor.c:443-464 | Two starts at a time can get there, for any table and any two processes, and then the locks are never free again. |

## Left out

- Files and the operating system: failures of lseek, read, write, mkstemp and malloc (other than the one that
  `add_pid_sysc` reports), mmap, options, parsing of traces and of valgrind output, and all printing. A trace is a
  sequence of accesses.
- The two-level page directory with its tagged pointers (`pagetable.c:76-113` and 152-165): the page table is a map
  from page number to entry.
- `rand.c`: an arbitrary frame in range, which all theorems about runs of the simulator allow for.
- `opt_init` parses the trace file, and its list ends in an address it never reads in: the model takes the references
  and whatever addresses stand behind them.
- Overflow of the 32-bit counters and of the version word: they are unbounded.
- Addresses that are not page-aligned: the run theorems are for aligned traces, as the trace tools print them; `opt.c`
  compares addresses, the model pages, which is the same for them.
- Floating point, padding of the records and timing in `blocked.c` and `matmul.c`: elements are of any type, with any
  addition and multiplication.
- Runs.InvariantsHold: slot ownership in a swap area of more than 2^27 slots is for page numbers below 2^27. The page
  directory takes addresses of 36 bits, whose page numbers are below 2^24.
- DirImage.Image.CreateLink: what follows a null position, and what is left of the image when the writes go on behind its
  end, are not modelled, as the program accesses memory that is no part of the image.
- DirImage.Image.Unlink: without path traversal, `remove_link`, and time stamps.
- Other parts of Assignment3: bitmaps of inodes and blocks, `allocate`, copying, making directories,
  `ext2_rm_bonus.c`.
- Monitor.ListsStayDuplicateFree: the table and its lists are values, and list operations are single steps. The code
  holds different locks around them (`destroy_list` the one on the table, `del_pid` the one on the lists), so that
  they are not in general exclusive.
- Interceptor: argument checks on existing pids and owners (a refused command does nothing), the write of
  `intercepted` in `interceptor`, module load and unload, page protection, and the saved function pointers.
- `simpleloop.c`, `fourDimArr.c`, `timer.h`, makefiles and scripts.
