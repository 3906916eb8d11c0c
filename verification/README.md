# A verified model of cfunge

cfunge is a Befunge-98 interpreter written in C. This project models its self-contained
engines in Dafny and proves what they are for:

- **Substring search** (`Words`, `TwoWay`, `Strstr`): the Two-Way algorithm over
  zero-terminated strings of cells. The critical factorization theorem is proved for
  arbitrary words, the two maximal-suffix scans are proved against it, and the search
  returns the first occurrence for every haystack and needle, within a linear number of
  comparisons and without reading behind the terminator.
- **Lahey space** (`Lahey`, `Probes`): closed-form wrapping refines the stepping definition;
  the successor inside the box is a permutation of the box, and reflection retraces; what
  the wrap does to positions that approach the box, and so to `{`.
- **Funge-Space** (`AxisCounts`, `FungeSpace`, `SpaceRuns`): the static array and the table
  stand for a total map; use counts, the bounding box and its lazy "exact" flag.
- **Hash table** (`HashTable`, `TableRuns`): the linked entries, both doubly linked lists,
  automatic rehash; any run of operations acts as a finite map with an insertion order.
- **Pool allocator** (`MemPools`): free list and bump allocation.
- **Stacks** (`Stacks`): growable stacks, `{`, `}`, `u` and stack duplication.
- **Instruction pointers** (`ZeroTicks`, `Ips`, `Scheduler`, `Worlds`, `IpLists`): skipping
  of spaces and `;`, what `k` fetches, what instructions do to their own IP, splitting and
  terminating IPs, and the passes of the main loop: who runs, and where every IP ends up.
- **DATE** (`Dates`, `DateStack`): Julian day numbers over all integers.
- **TOYS** (`Toys`): overlapping rectangle copies and moves, and matrices by way of the stack.
- **Program text** (`Texts`): loading, loading at an offset, saving, and their round trip.
- **UTF-8** (`Utf8`): genx's reader and encoder, checking and scrubbing.
- **Numbers** (`Numerals`): the overflow-stopping reader and the writer of BASE.

Code that changes state step by step is modelled by classes and methods with loops, each
proved against a specification; code made of expressions is modelled by functions and
lemmas. `dafny verify dfyconfig.toml` checks the whole project.

Where the code does less than its documentation or a reader would expect, the code is
followed and the exact condition is proved:

- A cardinal wrap lands one cell outside the box, a flying wrap sometimes does
  (`Lahey.CardinalWrapLands`, `Lahey.FlyingWrapLands`).
- Minimising finds the hull of the non-blank cells except where an axis is more than 65536
  wide, no line outside the static area is in use on it, and all lines in use lie on one
  side of 0: then coordinate 0 stays in the box (`FungeSpace.Space.MinimizeBounds`,
  `SpaceRuns.SparseMinimiseKeepsZero`). The exact flag is truthful throughout a run if and
  only if no scan meets that case and no first cell is put into a blank space with another
  box (`SpaceRuns.Run`).
- An IP just below one that executes `@` loses its turn in that pass
  (`Scheduler.PassIsFair`, `Scheduler.TurnLost`).
- `{` steps forward and back to find its storage offset; where the forward step wraps in a
  flying direction onto an entry edge, the step back does not return and the next
  instruction is skipped (`Probes.ProbeKeepsCourse`, `Probes.SkippingProbe`).
- W of DATE gives negative days of the week before day 0 (`Dates.WeekDayInRange`); T of
  DATE lets a negative day of the year and the year 0 through (`Dates.YearDayAccepted`,
  `Dates.BadDatesAccepted`).
- A text of a single byte is not written (`Texts.SaveThenLoad`).
- TOYS' copies equal the simultaneous copy only for some directions
  (`Toys.CopyExactness`, `Toys.MoveExactness`).
- N of BASE in base 1 cannot be read back (`Numerals.PrintThenParse`).

## Model

| member | source | states |
|---|---|---|
| Words.RepetitionIsPeriod | lib/fungestring/funge_str-two-way.h:108-116 | At the split the algorithm chooses, every word that sits on both sides of the cut, up to the length of the needle, gives a period of the whole needle and is longer than the left half: the critical factorization theorem in sharp form |
| Words.CriticalFactorization | lib/fungestring/funge_str-two-way.h:108-121 | At that split the local period is the least period of the needle, and exceeds the left half |
| Words.RepetitionLongerThanLeft | lib/fungestring/funge_str-two-way.h:114-121 | At the start of a maximal suffix, no repetition around the cut fits into the left half |
| Words.ShortPeriodSpreads | lib/fungestring/funge_str-two-way.h:232-234 | A period of the needle that fits into the right half forces the least period of the right half on all of the needle |
| Words.PeriodicTest | lib/fungestring/funge_str-two-way.h:232-234 | Comparing the left half with the letters one period on decides whether the right half's least period is the needle's; if not, every period exceeds both halves |
| TwoWay.ScanSmaller | lib/fungestring/funge_str-two-way.h:150-154 | The branch for a smaller letter keeps the scan's invariant: the whole prefix becomes the period |
| TwoWay.ScanEqual | lib/fungestring/funge_str-two-way.h:155-162 | The branch for an equal letter keeps the invariant, within a copy of the period and at its end |
| TwoWay.ScanLarger | lib/fungestring/funge_str-two-way.h:163-167 | The branch for a larger letter keeps the invariant: every suffix given up is beaten by one that starts at the new candidate or later |
| TwoWay.ScanEnd | lib/fungestring/funge_str-two-way.h:147-169 | When a scan ends its candidate is the maximal suffix under its order, with that suffix's least period |
| TwoWay.MaximalSuffix | lib/fungestring/funge_str-two-way.h:143-169 | Either scan, by its order: the maximal suffix and its least period, in fewer than twice the needle's length comparisons |
| TwoWay.CriticalFactorization | lib/fungestring/funge_str-two-way.h:123-204 | The split and the least period of the right half; the local period there is the needle's least period and exceeds the left half; fewer than 4 comparisons a letter |
| TwoWay.Available | lib/fungestring/funge_strstr.c:31-33 | Whether the haystack reaches so far; only cells not known before are read, none behind the terminator |
| TwoWay.OccurrenceInsideMatch | lib/fungestring/funge_str-two-way.h:285-289 | An occurrence that begins inside a partial match of the right half makes the distance a period of the needle |
| TwoWay.PeriodShift | lib/fungestring/funge_str-two-way.h:261-264 | After a full match of the right half and none of the left, shifting by the period skips no occurrence, and what is remembered does match |
| TwoWay.MismatchShift | lib/fungestring/funge_str-two-way.h:265-268 | Shifting past a mismatch in the right half skips no occurrence |
| TwoWay.LongShift | lib/fungestring/funge_str-two-way.h:284-286 | For a needle without a short period, shifting by more than either half skips no occurrence |
| TwoWay.SearchPeriodic | lib/fungestring/funge_str-two-way.h:232-269 | The branch with memory: the least position of the needle or none, with at most 3 comparisons a haystack cell |
| TwoWay.TryWindow | lib/fungestring/funge_str-two-way.h:315-345 | One window of the other branch: an occurrence, the end of the haystack, or a shift that skips no occurrence and pays for the letters compared |
| TwoWay.SearchAperiodic | lib/fungestring/funge_str-two-way.h:270-354 | The branch without memory, which reads until the terminator: the least position of the needle or none, with at most 3 comparisons a haystack cell |
| TwoWay.TwoWayShortNeedle | lib/fungestring/funge_str-two-way.h:216-357 | The least position of the needle or none, in a linear number of comparisons |
| Strstr.ScanPrefix | lib/fungestring/funge_strstr.c:55-57 | Walking both strings together finds the needle longer than the haystack, or its length and whether it is a prefix |
| Strstr.FirstLetterOnly | lib/fungestring/funge_strstr.c:64-71 | No occurrence starts before the first letter is found; for one-letter needles that is the answer |
| Strstr.UnsignedOccurs | lib/fungestring/funge_strstr.c:79-81 | Casting cells to unsigned changes no occurrence |
| Strstr.FungeStrstr | lib/fungestring/funge_strstr.c:41-82 | For all zero-terminated strings of 64-bit cells: the least position where the needle stands in the haystack, none exactly when there is none, and the start for an empty needle; at most 4 comparisons a haystack cell and 6 a needle cell, the prefix scan and strchr included |
| Strstr.Strchr | lib/fungestring/funge_strstr.c:64-67 | The first cell with the letter from a position on, or none, read no further than the terminator |
| Lahey.WrapFracCeiling | src/funge-space/funge-space.c:665-669 | For an IP leaving the box, wrap_frac is the ceiling of distance over step |
| Lahey.CeilingAtReentry | src/funge-space/funge-space.c:665-669 | The ceiling is the number of steps back to the re-entry cell exactly when that cell is on the edge, and at most one more otherwise |
| Lahey.AxisAtReentry | src/funge-space/funge-space.c:675-680 | The same for either direction of an axis |
| Lahey.FlyingWrapLands | src/funge-space/funge-space.c:682-705 | Whenever the ray backwards meets the box and leaves it at E, the closed form lands on E if E is on an entry edge and otherwise on E minus delta, outside the box |
| Lahey.CardinalWrapLands | src/funge-space/funge-space.c:718-729 | A cardinal wrap always lands one step before the re-entry cell |
| Lahey.FastWrapRefinesSlow | src/funge-space/funge-space.c:731-739 | For every position outside the box: the fast code agrees with the code under SLOW_WRAP on a cell of the box, at once or by its next step, if and only if the position is one step outside; from anywhere else the slow loop does nothing |
| Lahey.Rewind | src/funge-space/funge-space.c:731-737 | Stepping back ends inside the box, at a cell whose predecessor is outside |
| Lahey.ForwardStep | src/ip.h:123-127 | One ip_forward from inside the box leads to the in-box successor, directly or by way of one outside cell; exactly when is stated |
| Lahey.ReflectionRetraces | src/ip.h:153-157 | Stepping, reversing and stepping again returns to the start, for every cell of the box and every non-zero delta |
| Lahey.NextIsPermutation | src/ip.h:123-157 | For every non-zero delta the in-box successor is injective and onto the box |
| Lahey.WalkReachesLine | src/funge-space/funge-space.c:731-739 | Every cell of the box on the line of an IP comes up within one round of the line |
| Probes.ApproachingWrap | src/funge-space/funge-space.c:665-705 | A flying wrap of a position one step behind the far end of the line lands on that end if it is on an entry edge and otherwise stays; two steps behind, it makes at most one step: the fraction rounds differently for approaching positions |
| Probes.CardinalProbe | src/interpreter.c:440-447 | In a cardinal direction the step forward and back of `{` at the edge leaves the IP one cell outside the box, from where its course goes on |
| Probes.FlyingProbe | src/interpreter.c:440-447 | In a flying direction it leaves the IP on the far end of the line if that is on an entry edge, and otherwise one or two steps before it |
| Probes.ProbeKeepsCourse | src/interpreter.c:440-450 | After `{` the IP reaches the same next cell as without the probe if and only if the forward step did not wrap onto an entry edge in a flying direction, or the line has one cell only; otherwise it has been put onto that cell and goes on to the one after |
| Probes.SkippingProbe | src/interpreter.c:440-450 | A family of boxes and steps where the next instruction is skipped |
| AxisCounts.CountTable.CountOrNew | src/funge-space/funge-space.c:391-401 | The count of the key goes up or down by one and no other changes; the key is dropped exactly when its count becomes zero |
| AxisCounts.AxisCount.Count | src/funge-space/funge-space.c:406-436 | Exactly the count of the line changes, by one, whether it is kept in the array or the table |
| AxisCounts.AxisCount.ScanInwards | src/funge-space/funge-space.c:344-351 | Scanning inwards from a range that holds all lines in use ends at their hull, or at the upper end when none is in use |
| AxisCounts.AxisCount.ScanSparsely | src/funge-space/funge-space.c:284-317 | The scan of table and array gives the hull of the lines in use; with an empty table it gives that hull with 0 added, which is the hull itself exactly when lines on both sides of 0 are in use |
| FungeSpace.Space.constructor | src/funge-space/funge-space.c:81-117 | A new space is blank, with the box at the origin, exact but not yet valid |
| FungeSpace.Space.Count | src/funge-space/funge-space.c:406-439 | One cell more or less in its column and row, and inexact bounds when a cell on an edge of the box goes |
| FungeSpace.Space.SetStatic | src/funge-space/funge-space.c:538-548 | The static half of a store changes one cell and keeps the counts |
| FungeSpace.Space.SetEntry | src/funge-space/funge-space.c:549-566 | The table half of a store changes one cell and keeps the counts; no blank is stored |
| FungeSpace.Space.SetNoBoundsUpdate | src/funge-space/funge-space.c:530-583 | One cell changes and no other; every count remains the number of non-blank cells of its line; the exact flag falls exactly when a cell on an edge becomes blank |
| FungeSpace.Space.Set | src/funge-space/funge-space.c:586-603 | The total map changes at one vector; the box grows to hold a non-blank cell; counts, table and box stay consistent; the exact flag stays truthful except when the first cell is set in a blank space whose box is not that cell |
| FungeSpace.Space.SetInitial | src/funge-space/funge-space.c:605-631 | The same for initial loading, where the first cell defines the box, so the box stays the hull |
| FungeSpace.Space.MinimiseAxis | src/funge-space/funge-space.c:339-352 | Either scan, chosen by the extent, gives an interval that holds all lines in use |
| FungeSpace.Space.MinimizeBounds | src/funge-space/funge-space.c:319-372 | Minimising sets the flag and keeps all cells in the box; for a space that is not blank the box becomes the hull if and only if, on each axis, the box before was at most 65536 wide, or a cell lies outside the static range of the axis, or cells lie on both sides of 0 |
| FungeSpace.Space.SparseLines | src/funge-space/funge-space.c:291-307 | The count table is empty exactly when no line outside the static area is in use |
| FungeSpace.Space.BoxByCounts | src/funge-space/funge-space.c:319-372 | The counts decide whether a box holds all non-blank cells and whether it is their hull |
| FungeSpace.Space.WrapPosition | src/funge-space/funge-space.c:708-743 | A very large inexact box comes out exact, and as the hull under the condition of minimising; the position is then wrapped in closed form |
| FungeSpace.HullAfterSet | src/funge-space/funge-space.c:586-603 | How a store affects whether the box is the hull |
| FungeSpace.FilledChanges | src/funge-space/funge-space.c:406-439 | How a store changes the number of non-blank cells of each line |
| SpaceRuns.Apply | src/funge-space/funge-space.c:530-743 | One store, minimise or wrap changes cells, box and flag as stated, and leads from a truthful flag to a truthful flag if and only if it is safe: a scan meets the condition of minimising, and no first cell is put into a blank space flagged exact with another box |
| SpaceRuns.Run | src/funge-space/funge-space.c:478-743 | After any run of stores, minimisings and wraps every cell holds the last value put there; a flag that is truthful at the start is truthful at every moment of the run if and only if every operation is safe where it is applied; no bound on the size of the box |
| SpaceRuns.SparseMinimiseKeepsZero | src/funge-space/funge-space.c:291-317 | An operation that is not safe: a run after which the flag is set although the box is not the hull |
| HashTable.LinkFront | lib/libghthash/hash_table_priv.h:410-416 | Linking an entry to the front of a bucket chain |
| HashTable.UnlinkChain | lib/libghthash/hash_table_priv.h:138-145 | Unlinking an entry from anywhere in a bucket chain |
| HashTable.LinkNewest | lib/libghthash/hash_table_priv.h:424-433 | Linking an entry to the new end of the age list |
| HashTable.UnlinkAge | lib/libghthash/hash_table_priv.h:147-156 | Unlinking an entry from anywhere in the age list |
| HashTable.Table.SearchInBucket | lib/libghthash/hash_table_priv.h:170-198 | Finds the entry of a key exactly when the table holds one |
| HashTable.Table.LinkBucket | lib/libghthash/hash_table_priv.h:410-418 | A new entry joins its bucket; chains, heads and chain lengths stay consistent |
| HashTable.Table.LinkAge | lib/libghthash/hash_table_priv.h:422-433 | A new entry joins the age list and the item count |
| HashTable.Table.UnlinkBucket | lib/libghthash/hash_table_priv.h:132-145 | An entry leaves its bucket; other chains are untouched |
| HashTable.Table.UnlinkByAge | lib/libghthash/hash_table_priv.h:147-157 | An entry leaves the age list and the item count |
| HashTable.Table.Unlink | lib/libghthash/hash_table_priv.h:521-529 | An entry leaves the table, which stays valid |
| HashTable.Table.constructor | lib/libghthash/hash_table_priv.h:309-356 | An empty table whose size is the next power of two |
| HashTable.Table.Get | lib/libghthash/hash_table_priv.h:438-462 | The value of the map at the key |
| HashTable.Table.Replace | lib/libghthash/hash_table_priv.h:464-496 | The map changes at a key it holds and at no other; the order of insertion stays |
| HashTable.Table.Remove | lib/libghthash/hash_table_priv.h:498-541 | The key leaves the map and the order, and nothing else does |
| HashTable.Table.Insert | lib/libghthash/hash_table_priv.h:380-436 | A new key joins the map and the end of the order, by way of an automatic rehash where that is due; a key already present is refused and nothing changes |
| HashTable.Table.Refill | lib/libghthash/hash_table_priv.h:667-678 | Inserting every entry, oldest first, into the new table gives the same map and order |
| HashTable.Table.Rehash | lib/libghthash/hash_table_priv.h:648-706 | Rehashing keeps the map and the insertion order |
| HashTable.Table.Adopt | lib/libghthash/hash_table_priv.h:692-705 | Taking over the fields of the temporary table |
| HashTable.Table.First | lib/libghthash/hash_table_priv.h:543-579 | The iterator starts at the oldest entry |
| HashTable.Table.Next | lib/libghthash/hash_table_priv.h:581-620 | The iterator goes on to the next newer entry |
| HashTable.Table.Keys | lib/libghthash/hash_table_priv.h:543-620 | Iterating visits each live key exactly once, in the order of insertion |
| HashTable.MaskIsRemainder | lib/libghthash/hash_table_priv.h:394 | And-ing a hash with the mask size - 1 is taking the remainder by the size, for every power of two |
| HashTable.Table.BucketIndex | lib/libghthash/hash_table_priv.h:394 | The bucket computed from hash and mask is the one the table files the key under |
| HashTable.PowersOfTwo | lib/libghthash/hash_table_priv.h:321-327 | The sizes tried are the powers of two |
| TableRuns.Apply | lib/libghthash/hash_table_priv.h:380-706 | One operation has its effect on the map and the order and answers from them |
| TableRuns.Run | lib/libghthash/hash_table_priv.h:380-706 | Over any run of insert, replace, remove, get, rehash and iteration the table is the finite map and order that the operations define, and every answer is that map's |
| MemPools.MemPool.constructor | lib/mempool/cfunge_mempool_priv.h:106-118 | One pool, nothing live |
| MemPools.MemPool.Alloc | lib/mempool/cfunge_mempool_priv.h:134-143 | Never a live block; the block freed last if there is one, else one never used before; always a block of some pool |
| MemPools.MemPool.Free | lib/mempool/cfunge_mempool_priv.h:146-150 | A live block goes to the front of the free list |
| MemPools.MemPool.FreeListAdd | lib/mempool/cfunge_mempool_priv.h:197-203 | Links the block in front of the list |
| MemPools.MemPool.FreeListGet | lib/mempool/cfunge_mempool_priv.h:206-217 | Takes the front of the list, or nothing |
| MemPools.MemPool.AddMempool | lib/mempool/cfunge_mempool_priv.h:179-194 | A longer header array with one pool more; the old blocks stay where they were |
| MemPools.MemPool.GetNextFree | lib/mempool/cfunge_mempool_priv.h:221-237 | The next block of the last pool, or of a new pool, never handed out before |
| MemPools.MemPool.InitialiseMempool | lib/mempool/cfunge_mempool_priv.h:157-165 | A pool of one block more than the count, all different |
| MemPools.MemPool.BlocksAddUp | lib/mempool/cfunge_mempool_priv.h:135-150 | Live blocks, free blocks and blocks never used account for every block of every pool |
| Stacks.FungeStack.PreallocSpace | src/stack.c:100-121 | Room for more than the requested items, contents unchanged |
| Stacks.FungeStack.Push | src/stack.c:132-148 | One item more, growing when full |
| Stacks.FungeStack.PushNoCheck | src/stack.c:123-130 | One item more, where room was made beforehand |
| Stacks.FungeStack.Pop | src/stack.c:150-158 | The top item and one item fewer; zero from an empty stack |
| Stacks.FungeStack.Discard | src/stack.c:160-169 | Drops items, down to an empty stack |
| Stacks.FungeStack.PushVector | src/stack.c:211-218 | Two items more |
| Stacks.FungeStack.PopVector | src/stack.c:220-228 | The top two items as a vector |
| Stacks.FungeStack.DupTop | src/stack.c:323-333 | The top item twice; an empty stack becomes two zeros |
| Stacks.FungeStack.SwapTop | src/stack.c:335-346 | The top two items exchanged, absent ones being zeros |
| Stacks.FungeStack.ZeroFill | src/stack.c:493-500 | That many zeros more |
| Stacks.FungeStack.BulkCopy | src/stack.c:502-523 | The top items of the other stack in order, with zeros for those below its bottom |
| Stacks.FungeStack.Duplicate | src/stack.c:71-87 | A copy with its own storage |
| Stacks.StackStack.PushTop | src/stack.c:132-148 | One item more on the top stack, the others unchanged |
| Stacks.StackStack.PopTop | src/stack.c:150-158 | One item fewer on the top stack, the others unchanged |
| Stacks.StackStack.Begin | src/stack.c:525-582 | The stacks become what the specification of `{` says, for positive, zero and negative counts; no two stacks share storage |
| Stacks.StackStack.End | src/stack.c:585-615 | The stacks and the storage offset become what the specification of `}` says |
| Stacks.StackStack.Transfer | src/stack.c:618-634 | The two top stacks become what the specification of `u` says, for either sign, and no two stacks share storage |
| Stacks.TransferredItems | src/stack.c:618-634 | `u` by its items: the n items on top of the one stack end up on the other in reverse order, above what was there; a short stack gives zeros; the lower stacks stay; for either sign |
| Stacks.TransferStep | src/stack.c:622-632 | `u` is one pop and one push, then `u` of the rest |
| Stacks.BegunItems | src/stack.c:566-577 | `{` by its items: the storage offset goes on the second stack with y on top, above the items left or above the zeros of a negative count; the new top stack holds the items that were on top in the same order |
| Stacks.EndedItems | src/stack.c:595-606 | `}` by its items: the storage offset comes from the second stack, y from its top, which then gets the items on top of the first in the same order, or loses as many for a negative count |
| Stacks.StackStack.Duplicate | src/stack.c:424-449 | A deep copy that shares no storage |
| Stacks.EndUndoesBegin | src/interpreter.c:440-461 | `{` n then `}` n restores every stack and the storage offset; only a stack shorter than n differs, by zeros below its bottom that no pop can tell |
| Stacks.MergeUndoesTake | src/stack.c:566-604 | The items `{` takes and `}` merges make up the stack again |
| Stacks.TransferUndone | src/stack.c:618-634 | `u` n then `u` -n restores both stacks, in the same sense |
| Stacks.ZerosBelow | src/stack.c:150-158 | Zeros below the bottom change no item any pop can see |
| ZeroTicks.FindFollowsMainLoop | src/instructions/iterate.c:61-82 | From any cell, with or without an open jump, find_next_instr finds what repeated zero-tick instructions of the main loop find |
| ZeroTicks.MainLoopFindsFirst | src/interpreter.c:175-203 | What the main loop finds is the first cell that is neither a space nor a `;` and has an even number of `;` before it, or there is none |
| ZeroTicks.FetchIsMainLoop | src/instructions/iterate.c:140-148 | `k` fetches the instruction the main loop would execute next |
| ZeroTicks.MainLoopShifts | src/interpreter.c:175-203 | Leaving out a first cell already passed only renumbers what the main loop finds |
| ZeroTicks.MainLoopExtends | src/interpreter.c:175-203 | Cells further along the line change no answer already found |
| Ips.InstructionPointer.Duplicate | src/ip.c:93-112 | A copy of the position, delta, storage offset, mode and flags, with its own stacks |
| Ips.InstructionPointer.BeginBlock | src/interpreter.c:440-451 | `{`: the count is popped, the stacks and the storage offset of the IP become what the specification says, with the cell after the IP as the new offset |
| Ips.InstructionPointer.EndBlock | src/interpreter.c:452-461 | `}`: reflects with one stack only; otherwise the count is popped and the stacks and the storage offset of the IP become what the specification says |
| Ips.InstructionPointer.TransferCells | src/interpreter.c:462-472 | `u`: reflects with one stack only; otherwise the count is popped and the stacks become what the specification of `u` says |
| Ips.InstructionPointer.Perform | src/interpreter.c:440-472 | The position, delta, storage offset, stacks and needMove of the IP after pushing or popping a cell, turning, jumping, staying, `{`, `}` or `u`; the stacks stay sound and grow by new storage only; only `{` can settle the bounds of the space |
| Ips.PushesAndPops | src/stack.c:132-158 | A cell pushed is on top until it is popped again, which leaves the IP as it was |
| Ips.BeginsBlock | src/interpreter.c:440-451 | `{` adds one stack, with as many of the items below the count as it says in the same order; the old storage offset goes below, y on top; the new one is the cell after the IP; the delta stays |
| Ips.EndsBlock | src/interpreter.c:452-461 | `}` takes one stack away, restores the storage offset from the second stack and moves the items over in the same order, or drops as many for a negative count; it reflects with one stack only |
| Ips.TransfersCells | src/interpreter.c:462-472 | `u` moves as many items as the count says to the other stack, the last one moved on top; it reflects with one stack only |
| Ips.BlockUndone | src/interpreter.c:440-461 | Pushing n and `{`, then pushing n and `}`, restores the delta, the storage offset and the stacks, the top one up to zeros below its bottom; the position is that of the probe of `{` |
| Ips.TransferBack | src/interpreter.c:462-472 | Pushing n and `u`, then pushing -n and `u`, changes nothing but zeros below the bottoms of two stacks |
| Ips.InstructionPointer.Advance | src/ip.h:123-127 | One step and a wrap |
| Ips.InstructionPointer.FindStorage | src/interpreter.c:444-447 | The position and the storage offset after the probe of `{` |
| Ips.InstructionPointer.ThreadForward | src/interpreter.c:576-584 | A step, or the held-back step is used up |
| Ips.InstructionPointer.ForwardUntil | src/interpreter.c:179-185 | The skipping loops, started in the box or on the outside cell a wrap leads to, terminate at the first stopping cell in Lahey order, within one round of the line and two steps a cell |
| Ips.InstructionPointer.ExecuteSpace | src/interpreter.c:175-188 | A space, in the box or on the outside cell a wrap has led to, moves on to the next non-blank cell of the line, where the IP stays |
| Ips.StepsStayOnCourse | src/ip.h:123-127 | Every step from inside the box leaves the IP where the skipping loops may start |
| Ips.InstructionPointer.ExecuteSemicolon | src/interpreter.c:191-203 | `;` moves on to the next `;` of the line, at the latest to itself |
| Ips.InstructionPointer.FindNextInstr | src/instructions/iterate.c:61-82 | The IP ends where the scan of its trail says |
| Ips.InstructionPointer.Fetch | src/instructions/iterate.c:140-148 | The IP ends at the cell the main loop would next run with a tick |
| Ips.InstructionPointer.FetchAsMainLoop | src/instructions/iterate.c:140-148 | From the same place, `k` takes its instruction from the very cell at which the main loop, moving on, next runs one with a tick |
| Ips.InstructionPointer.RunZeroTicks | src/interpreter.c:175-203 | The main loop's zero-tick turns end at the next cell with a tick |
| Scheduler.StepKeepsIds | src/ip.c:289-293 | A split or a death keeps IDs unique and at most highestID |
| Scheduler.StepKeepsInvariant | src/interpreter.c:595-657 | One turn of the pass keeps: the IPs still to come are those the pass began with, and those gone by have ticked unless an `@` just above them took their turn |
| Scheduler.RunKeepsInvariant | src/interpreter.c:595-657 | So does any number of turns |
| Scheduler.PassIsFair | src/interpreter.c:595-657 | For every pass: no IP has more than one ticking instruction, an IP born in the pass has none, and one present at the start has none if and only if the IP just above it executed `@` |
| Scheduler.TurnLost | src/interpreter.c:544-550 | A pass in which an IP loses its turn |
| Scheduler.RunKeepsIdsUnique | src/ip.c:221-355 | Over a pass IDs are unique and at most highestID, which never falls, and a new IP has an ID never used before |
| Scheduler.PassesKeepIdsUnique | src/interpreter.c:594-657 | The same over any number of passes: IDs are unique and at most highestID, which never falls, and the ID of an IP that has died is never given to another |
| Worlds.RoundById | src/interpreter.c:603-656 | One round, IP by IP: the one that runs is one step on from where its instruction left it, or not moved if that held it back; all others are unchanged, but the one picked up by `@` is no longer held back; a new IP is a copy of its parent turned around and one step on |
| Worlds.RoundsSchedule | src/interpreter.c:595-657 | Whatever the instructions do to their IPs, the list goes through the states of the scheduler |
| Worlds.LivesItsTurns | src/interpreter.c:595-657 | Over a pass, whatever the other IPs do: an IP present at its start and its end is where its own instructions, with one move after each, have taken it, with the stacks they have left |
| Worlds.LivesAllItsTurns | src/interpreter.c:594-657 | The same over any number of passes |
| Worlds.TurnsAsTraced | src/interpreter.c:595-657 | The turns an IP gets are those the trace of the scheduler tells of |
| Worlds.QuietPass | src/interpreter.c:595-657 | In a pass of ordinary instructions every IP executes one, from the top of the list down, and moves one step |
| IpLists.ShiftUp | src/ip.c:254-262 | The slots above the index move up by one |
| IpLists.ShiftDown | src/ip.c:325-333 | The slots above the index move down by one |
| IpLists.IpList.constructor | src/ip.c:163-200 | One IP with ID 0, at the origin, going east, with one empty stack |
| IpLists.IpList.Reserve | src/ip.c:231-242 | Room for one IP more, the list unchanged |
| IpLists.IpList.DuplicateIp | src/ip.c:221-297 | The child stands directly above its parent, mirrored and one step on, with copies of its stacks and the next ID; no two IPs share storage |
| IpLists.IpList.TerminateIp | src/ip.c:300-355 | The gap closes and the slot below is returned |
| IpLists.IpList.Terminate | src/interpreter.c:538-550 | `@` with other IPs left: the IP leaves the list, and the one in the slot below is picked up, neither run nor moved; no other changes |
| IpLists.IpList.SplitTimes | src/instructions/iterate.c:176-193 | `t` repeated by `k` puts the children directly above the parent, the youngest lowest, each a copy of the parent turned around and one step on; no other IP changes |
| IpLists.IpList.MoveOn | src/interpreter.c:576-584 | The IP is one step on in its direction, wrapped, if it may move, and else may move from now on; no other IP changes |
| IpLists.IpList.PerformOne | src/interpreter.c:440-472 | An effect of an instruction changes its own IP as specified and no other; no two IPs come to share storage |
| IpLists.IpList.PerformAll | src/interpreter.c:440-472 | All effects of an instruction, in order, on the IP in the slot; no other IP changes |
| IpLists.IpList.Act | src/interpreter.c:648-655 | One instruction, what it does to its IP and to the list, and the move after it: the list and the state of every IP are as specified |
| IpLists.IpList.Turn | src/interpreter.c:603-656 | One round of the inner loop is one step of the scheduler, and leaves every IP where the specification of a round puts it |
| IpLists.IpList.RunPass | src/interpreter.c:595-657 | A pass over the array of IPs goes through exactly the specified rounds: the list, the trace, and the position, delta, storage offset and stacks of every IP; the list stays sound, IDs unique and storage apart |
| IpLists.IpList.RunPasses | src/interpreter.c:594-657 | So does any number of passes |
| Dates.NextDay | src/fingerprints/DATE/DATE.c:92-114 | The calendar successor of an accepted date is an accepted date |
| Dates.PreviousOfNext | src/fingerprints/DATE/DATE.c:92-114 | Successor and predecessor undo each other |
| Dates.DateRoundTrip | src/fingerprints/DATE/DATE.c:116-153 | julian_to_ymd inverts ymd_to_julian on every accepted date |
| Dates.NumberRoundTrip | src/fingerprints/DATE/DATE.c:116-153 | Over all integers julian_to_ymd gives an accepted date that ymd_to_julian maps back |
| Dates.NextDayIsNextNumber | src/fingerprints/DATE/DATE.c:116-132 | The day number grows by one from each day of the calendar to the next |
| Dates.NextNumberIsNextDay | src/fingerprints/DATE/DATE.c:134-153 | One more on the day number is the calendar successor, for all integers |
| Dates.NumbersAreUnique | src/fingerprints/DATE/DATE.c:116-132 | Different accepted dates have different numbers |
| Dates.CenturyFound | src/fingerprints/DATE/DATE.c:141-143 | The first division finds the century, over all integers |
| Dates.YearFound | src/fingerprints/DATE/DATE.c:144-145 | The second division finds the year of the century |
| Dates.MonthFound | src/fingerprints/DATE/DATE.c:146-149 | The third division finds the month and the day |
| Dates.AddUndoesDifference | src/fingerprints/DATE/DATE.c:155-192 | A and D undo each other, and A keeps to the calendar for any number of days |
| Dates.WeekDayInRange | src/fingerprints/DATE/DATE.c:231-241 | W gives the day of the week from 0 to 6 exactly from day 0 on and on whole weeks before; otherwise it is negative |
| Dates.WeekDayBeforeDayZero | src/fingerprints/DATE/DATE.c:231-241 | The day before day 0 comes out as -1 |
| Dates.YearDayCounts | src/fingerprints/DATE/DATE.c:243-254 | Y counts the days of the months before, from 0 up to the length of the year |
| Dates.YearDayToFull | src/fingerprints/DATE/DATE.c:204-229 | T gives the date with that day of the year, rejecting only days past the year |
| Dates.YearDayRoundTrip | src/fingerprints/DATE/DATE.c:203-254 | T undoes Y on accepted dates, and Y undoes T on days of the year |
| Dates.YearDayAccepted | src/fingerprints/DATE/DATE.c:204-229 | T succeeds exactly for days not past the year, and what it gives is an accepted date exactly when the day is not negative and the year not 0 |
| Dates.BadDatesAccepted | src/fingerprints/DATE/DATE.c:204-229 | Two dates that T gives and that are none |
| DateStack.PopYmd | src/fingerprints/DATE/DATE.c:47-65 | Takes three items; reverses the IP exactly when they are no accepted date |
| DateStack.DateByDepth | src/fingerprints/DATE/DATE.c:47-75 | The day is on top of the stack, then come the month and the year, when a date is popped and when it is pushed |
| DateStack.FingerAddDays | src/fingerprints/DATE/DATE.c:155-168 | On the stack: an accepted date and a number become an accepted date; otherwise the IP is reversed and nothing pushed |
| DateStack.FingerJdnToYmd | src/fingerprints/DATE/DATE.c:170-177 | On the stack: any number becomes an accepted date with that number |
| DateStack.FingerDayDiff | src/fingerprints/DATE/DATE.c:179-192 | On the stack: two accepted dates become the days between them; the first that is none stops the popping |
| DateStack.FingerYmdToJdn | src/fingerprints/DATE/DATE.c:194-201 | On the stack: an accepted date becomes its number |
| DateStack.ThereAndBack | src/fingerprints/DATE/DATE.c:170-201 | J then C leave a date as it is, C then J a number, with the rest of the stack unchanged |
| Toys.CopyExactness | src/fingerprints/TOYS/TOYS.c:69-88 | A copy gives what the simultaneous copy gives, whatever the cells hold, if and only if the target is not ahead of the source in the order of the visit or the rectangles do not overlap |
| Toys.MoveExactness | src/fingerprints/TOYS/TOYS.c:212-233 | A move gives the simultaneous move if and only if the target is strictly behind the source or apart from it; the source outside the target is then left blank |
| Toys.OriginPrecedes | src/fingerprints/TOYS/TOYS.c:84-87 | A copy that chases its own target takes its values from cells of the source visited earlier |
| Toys.CopyLow | src/fingerprints/TOYS/TOYS.c:84-87 | Low order: every target cell has the value of its origin in the source, every other cell its own, for all overlaps |
| Toys.CopyHigh | src/fingerprints/TOYS/TOYS.c:195-198 | The same in high order |
| Toys.MoveLow | src/fingerprints/TOYS/TOYS.c:227-232 | Low order move, for all overlaps |
| Toys.MoveHigh | src/fingerprints/TOYS/TOYS.c:350-355 | High order move, for all overlaps |
| Toys.Bracelet | src/fingerprints/TOYS/TOYS.c:68-88 | C on the stack: six items popped, nothing for a zero size, the IP reversed for a negative one |
| Toys.OperandsByDepth | src/fingerprints/TOYS/TOYS.c:72-74 | The corner of the target is on top of the stack, then come the size and the corner of the source, each with y above x |
| Toys.ReversedWhen | src/fingerprints/TOYS/TOYS.c:76-82 | The IP is reversed exactly when one side is negative and the other is not zero |
| Toys.Scissors | src/fingerprints/TOYS/TOYS.c:179-199 | K likewise |
| Toys.Kittycat | src/fingerprints/TOYS/TOYS.c:211-233 | M likewise |
| Toys.Dixiecup | src/fingerprints/TOYS/TOYS.c:334-356 | V likewise |
| Toys.Calipers | src/fingerprints/TOYS/TOYS.c:106-121 | F writes the matrix from the stack row by row, zeros for a short stack, and changes nothing else |
| Toys.MatrixByDepth | src/fingerprints/TOYS/TOYS.c:112-116 | The corner is on top of the stack, y above x, then come the height and the width |
| Toys.MatrixCell | src/fingerprints/TOYS/TOYS.c:118-120 | F by its items: cell (x, y) of the matrix gets the item at depth y * width + x |
| Toys.Counterclockwise | src/fingerprints/TOYS/TOYS.c:123-138 | G stacks the matrix with its first cell on top |
| Toys.StackedAll | src/fingerprints/TOYS/TOYS.c:135-137 | G by its items: cell (x, y) of the matrix is the item at depth y * width + x |
| Toys.StackedBase | src/fingerprints/TOYS/TOYS.c:124-138 | Below the matrix are the items that were below its description |
| Toys.CopyByStack | src/fingerprints/TOYS/TOYS.c:106-138 | G then F copies a rectangle unchanged, even onto itself, and gives back the stack |
| Texts.LoadString | src/funge-space/funge-space.c:835-879 | Loading into a new space lays out the lines of the text, form feeds dropped and CR, LF and CR LF unified, and the box is the hull of what was loaded |
| Texts.LayoutOfUnified | src/funge-space/funge-space.c:847-878 | The layout depends only on the text with form feeds dropped and line ends unified |
| Texts.LayoutByByte | src/funge-space/funge-space.c:838-878 | The layout byte by byte: a form feed changes nothing, a CR ends the line, an LF ends it unless a CR just has, and any other byte goes on with the line |
| Texts.LoadedCells | src/funge-space/funge-space.c:860-877 | A load puts every byte of the layout but the spaces in its place, and changes no other cell |
| Texts.WidestIsMax | src/funge-space/funge-space.c:933-984 | The width is that of the longest line |
| Texts.ProgressStep | src/funge-space/funge-space.c:848-877 | Each byte, with or without a CR before it, advances the unified text |
| Texts.LoadAtOffset | src/funge-space/funge-space.c:950-984 | Loading at an offset lays the text over what is there; the size is the longest line and the number of line ends |
| Texts.SaveRow | src/funge-space/funge-space.c:1035-1056 | A row goes to the buffer without its trailing spaces, within the room a row has |
| Texts.SaveText | src/funge-space/funge-space.c:1024-1073 | What is written does not end in a line end; it loads as the rectangle if and only if all cells are bytes other than CR, LF and FF and not only the corner is filled; for such cells no line of it ends in a space, every line end is a single LF, and no text that loads as the rectangle is shorter; the buffer is large enough |
| Texts.LinesOfRows | src/funge-space/funge-space.c:1035-1056 | The lines of the rows are the rows |
| Texts.StrippedText | src/funge-space/funge-space.c:1057-1062 | Dropping line ends at the end changes no cell that is loaded |
| Texts.SingleByte | src/funge-space/funge-space.c:1064-1070 | A single byte is left exactly when only the corner of the rectangle is filled |
| Texts.LoadsTextCells | src/funge-space/funge-space.c:952-977 | No text loads as CR, LF, FF or anything but a byte |
| Texts.SaveThenLoad | src/funge-space/funge-space.c:914-1073 | Saving a rectangle and loading it at the same offset into blank space gives back exactly its cells if and only if all are bytes other than CR, LF and FF and not only the corner is filled |
| Texts.ShortestText | src/funge-space/funge-space.c:1035-1070 | Every text that loads as the rectangle has at least the bytes that are saved |
| Texts.SavedIsTidy | src/funge-space/funge-space.c:1035-1070 | For every rectangle: no line end at the end; for text cells no space at the end of a line, single LFs, and no shorter text that loads alike |
| Utf8.ValueOfEncoded | lib/genx/genx.c:1727-1745 | The encoder's bytes are well-formed by section 4 of RFC 3629 and stand for the character |
| Utf8.EncodedValue | lib/genx/genx.c:410-494 | Well-formed bytes stand for a scalar value and are the encoder's bytes for it |
| Utf8.EncodingKeepsOrder | lib/genx/genx.c:1727-1745 | The bytes of characters are in the order of the characters, as section 1 of RFC 3629 says |
| Utf8.NextAccepts | lib/genx/genx.c:410-494 | The reader accepts exactly the well-formed characters other than zero, with their value |
| Utf8.NextRejects | lib/genx/genx.c:474-494 | Where no character stands, the reader stops behind the first byte with which the bytes are no longer the beginning of any character, or at the end |
| Utf8.MalformedOnce | lib/genx/genx.c:474-494 | There is only one such place |
| Utf8.NextUnicodeChar | lib/genx/genx.c:410-494 | The character and the place after it; for malformed bytes the place after the first that does not fit; no byte behind the terminator is read |
| Utf8.CheckText | lib/genx/genx.c:697-708 | Success, bad UTF-8 or a non-XML character, each exactly when the next row says; no byte behind the terminator is read |
| Utf8.CheckMeaning | lib/genx/genx.c:697-708 | Success if and only if the text is made of well-formed characters, none zero, each from 0x10000 on or in the table; bad UTF-8 if and only if behind a beginning of such characters something stands that is no character; a non-XML character if and only if a character stands there that is not allowed |
| Utf8.ScrubText | lib/genx/genx.c:713-737 | The bytes written are the encoding of the allowed characters the string is made of, and the problems are its other pieces; the output fits a buffer as long as the input |
| Utf8.Pieces | lib/genx/genx.c:713-737 | Every string is made of well-formed characters and runs of malformed bytes |
| Utf8.ScrubMeaning | lib/genx/genx.c:713-737 | A scrub writes exactly the characters from 0x10000 on and those in the table, and counts every other character and every run of malformed bytes as a problem |
| Utf8.ScrubbedIsEncoded | lib/genx/genx.c:713-737 | A scrub writes the encoding of the characters it keeps |
| Utf8.EncodedReads | lib/genx/genx.c:697-737 | A text of encoded XML characters reads as those characters and passes the check |
| Utf8.ScrubLoses | lib/genx/genx.c:713-737 | Each problem costs at least one byte, and without one nothing is lost |
| Utf8.ScrubTheorem | lib/genx/genx.c:697-737 | For every string: the scrub terminates with one no longer, which the check accepts and a second scrub leaves unchanged; a scrub changes a string exactly when the check rejects it |
| Numerals.Guard | src/input.c:114-116 | The guard before the multiplication is exact |
| Numerals.ParseInt | src/input.c:102-135 | Nothing overflows; the value is that of the longest prefix of digits that fits a cell |
| Numerals.PrefixIsSmaller | src/input.c:113-132 | Longer prefixes have no smaller values |
| Numerals.OutputBase | src/fingerprints/BASE/BASE.c:65-93 | The digits of the number, most significant first; refused for a bad base or a negative number |
| Numerals.NumberOfDigits | src/fingerprints/BASE/BASE.c:87-91 | The digits generated have the number as their value |
| Numerals.DigitsInOrder | src/fingerprints/BASE/BASE.c:63 | The digits are 0 to 9, then a to z |
| Numerals.PrintedForm | src/fingerprints/BASE/BASE.c:65-93 | Base 1 prints as many zeros as the number says; the other bases print no leading zero; a space follows but for zero in a base other than 1 |
| Numerals.PrintThenParse | src/fingerprints/BASE/BASE.c:65-93 | Reading what was printed gives the number back if and only if the base is not 1 or the number is zero |

## Left out

- Integer widths: coordinates, cells and counts are unbounded integers (only the search and the number reader use 64-bit cells), so overflow of coordinates near the ends of the cell range is not modelled.
- Allocation failure: allocation always succeeds, and sizes in bytes do not overflow.
- Lahey.FastWrapRefinesSlow: SLOW_WRAP is modelled by the cell its loop ends at.
- Lahey.FlyingWrapLands: says nothing where the ray backwards from the position does not meet the box.
- TwoWay.MaximalSuffix: one method with the order as a parameter stands for the two scans, which are alike but for the comparison.
- Words and positions stand for pointers: forming an address before the start of an array is not an event of the model.
- HashTable.Table.Insert: the hash is an arbitrary function into the natural numbers; entries come from `new` rather than from the pool, which is modelled by itself; the heuristics that reorder chains are configured off.
- FungeSpace.Space.Set: the tables behind Funge-Space and the counts are maps here; the hash table is proved to be one separately.
- Ips.InstructionPointer.ForwardUntil: the bounds are settled while a loop runs (no large inexact box is minimised in it); a line without a stopping cell makes the loop endless and is excluded by the precondition.
- Ips.InstructionPointer.Fetch: the trail is taken long enough to hold the instruction; the repetition of `k`'s instruction and `k` under `k` are not modelled.
- Ips.InstructionPointer.Duplicate: the fingerprint opcode stacks and the timer of the copied record are not modelled.
- IpLists.IpList.RunPass: a script says what each executed instruction does to the list and to its own IP (pushing and popping, turning, jumping, staying, `{`, `}`, `u`); that the script follows from the cells of Funge-Space is left out, as are changes of the space between moves, string mode, the other opcodes, fingerprints and exit codes.
- Dates.NumberRoundTrip: quotients are exact floors; the rounding of long double is not modelled.
- Texts.LoadAtOffset: binary loading and saving, and the files themselves, are left out; texts are sequences of bytes.
- Texts.SaveText: the file is what is returned.
- Utf8.ValueOfEncoded: shifts and masks are quotients and remainders; the writer around the encoder and genx's tables of characters are left out, the table being an arbitrary predicate.
- Numerals.ParseInt: the search for the first digit of a line (which treats bases 10 and 16 apart) and the reading of lines are left out.
- Numerals.OutputBase: the size of the digit buffer, computed with logarithms, is left out.
- Toys: the other instructions of the fingerprint are left out.
- String push and pop of stacks, `y`, input and output, sockets, floating point and the remaining fingerprints would add only easy members or lie outside exact arithmetic.
