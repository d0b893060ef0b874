# memscan, modelled and proved

memscan finds every address of a process whose memory holds a value, then narrows that list scan after scan.
This project models that engine in Dafny and proves what its answers are.

Memory is a function from addresses to bytes together with a predicate that says which pages can be read (or,
for `Writes`, written). It does not change during one scan. On top of it stand, bottom up:

| files | what they model |
|---|---|
| `Kernel`, `Values`, `Sequences`, `Arithmetic` | memory, pages, the searched value and its comparison, ascending lists |
| `Streams` | what a scan of one region has to find, stated over the memory without carried bytes, windows or seeks |
| `RegionReader`, `ScanPosition`, `ByteScan`, `FloatScan`, `Scanner` | the chunked readers and searches, proved against `Streams` |
| `Mmap`, `VirtualRegion`, `Collector`, `ScanTasks` | result store, moving-cursor intersection, the collector closures, one task |
| `Regions`, `PlanRules` | planning regions, and which of them are merged and cut |
| `Maps`, `MapGroups`, `ListingScan` | parsing the memory map, its grouping in terms of the lines alone, and the way from a listing to an answer |
| `Slots`, `SparseRead`, `SparseScan` | scattered reads that skip bad addresses, and the sparse task |
| `ScanMeaning`, `TaskRuns`, `DenseScan`, `Session`, `SessionRuns` | what the tasks' answers mean, the session object and its runs |
| `PlannedScan`, `Matching`, `ScanResults`, `Overlap` | the end-to-end results, and the values for which they fail |
| `Fanout`, `ConcurrentScans`, `ConcurrentPut` | every interleaving of tasks, slots, semaphore, barrier and merge; concurrent puts |
| `Writes`, `ValueChanges` | scattered writes |

## What holds

- Searching. For every stream, buffer size, pattern of unreadable pages and value, `scanBytes` and the unrolled
  float scan report exactly the offsets that `Streams` asks for, up to where the collector stopped them: every
  place of the value, except that of overlapping places whose last bytes arrive with the same buffer the first wins.
- Planning. `RegionsOptimize` keeps the covered bytes and their number. Two planned pieces meet at a listed boundary
  only if one of the sizes there is above 64 KiB; every other cut lies 2 MiB behind the start of its piece. Over
  readable memory planning therefore keeps the answer of a first scan for an aligned or one-byte value, the ascending
  list of its places in the listing. For any value that cannot overlap itself, any listing and any unreadable pages,
  what is found is given exactly.
- Next scans. What a complete dense or sparse scan keeps, and when it fails, is given as a function of the memory,
  the value and the previous results, for every value. Both equal the plain filter of the previous results, under
  every schedule, when failing reads report a clamped count, the value does not overlap itself, the results are
  aligned for its type and no stale bytes are in play.
- Matching. Over readable memory all three scans compare by the range of a rounded float and by the bytes of every
  other value (`Matching`).
- Cancellation. Whatever a cancellation interrupts, the results begin with the whole answers of the tasks that had
  ended before it, and under every schedule they contain the whole answer of every task that had published.
- Parsing. Type and base address of every line follow from the lines alone (`MapGroups.TypeAndBase`).
- Sessions. Over every run the session is the top of a history of ascending, narrowing result lists.

## What does not hold, and exactly when

`failCount` is what a failing transfer reports: 0 once clamped, or -1, the bare system call's count, which the
code forwards. `io.ReadFull` adds that -1 to a partial count and `nRead / size` divides it. Both are covered. The
differences are proved as exact conditions:

- A dense scan with -1 counts misses a value if and only if unreadable memory inside the span follows it and the
  readable run is no multiple of the buffer, 65536 bytes for all but longer patterns
  (`ScanMeaning.DenseFindsUnlessCut`, for the whole scan `DenseScans.KeptMembers` and
  `ScanResults.DenseLosesExactlyCuts`).
- One-byte sparse reads with -1 counts index slot -1 exactly when the first address of a batch is unreadable, and
  repeat a call forever exactly when it is readable and two neighbours are not (`SparseRead.ReadValuesRaw`).
  One-byte writes hang exactly when a batch begins with an unwritable address or holds two in a row
  (`ValueChanges.ChangeHangsExactlyWhen`).
- Planning changes the answer for every byte pattern of two or more bytes, and only for those: a place across a
  planned cut lies in no piece and is lost (`PlannedScans.PlanningKeepsExactlyWhen`, `PlannedScans.StraddlingLost`).
- A first scan gives up a region at its first unreadable page. It finds a place if and only if everything from the
  start of its planned region through the place can be read, raw counts aside, so over unreadable pages planning can
  add matches (`ScanMeaning.FirstFindsUnlessCut`, `PlannedScans.UnreadablePageSplits`).
- A first scan of a value that cannot overlap itself can overfill a task's buffer if and only if it has fewer than
  eight bytes; the merge then panics, because `Put` moves the cursor past the capacity it refuses
  (`ScanResults.FirstScanRoom`).
- A dense scan never overfills a buffer for a value that cannot overlap itself or whose size divides the page
  (`DenseScans.PackedFits`). Others can: three equal bytes over 131070 results in uniform memory have 43691 hits and
  room for 43690, because the search starts afresh with the bytes carried into the second buffer
  (`Overlap.OverlapOverfills`).
- The sparse strategy does not check alignment. With clamped counts and nothing stale in play, the strategies agree
  over every memory if and only if every previous result is aligned for the value's type
  (`ScanResults.StrategiesAgree`).
- A sparse scan can keep an unreadable address if and only if the comparison accepts some word that begins with the
  disturbing byte, which only rounded floats do (`ScanResults.SparseKeepsUnreadable`). Which ones it keeps depends on
  the word of the result 1024 places before (`ScanResults.UnreadableKept`).
- `ChangeResultsValues` panics if and only if more than 1024 results are selected.
- The two strictest map levels deliver the same on every listing if and only if the executable's path is unknown
  (`MemoryMaps.UnknownExecutable`).

## Modelling choices

- Addresses and counts are natural numbers; address arithmetic does not wrap. Only a map line's size is a 64-bit
  difference. Bit masks appear as the arithmetic they stand for.
- The two collector closures are one class, `Collector`, with an optional region.
- The float scanners of both widths are one scanner with the word size as parameter; a rounded comparison is some
  fixed predicate on words.
- The methods of `Memscan` run their tasks one after another. `Fanout` proves that no interleaving makes a
  difference, including whether the merge panics on an overfilled buffer, and `ConcurrentScans` instantiates it with
  exactly the answers that the three tasks are proved to take.
- A cancellation context may become cancelled at any `Err`. It counts the tasks that ended before, so that contracts
  can speak of what they leave behind.
- `Open` leads to the state `Reset` leads to.

## Model

| member | source | states |
|---|---|---|
| Values.AlignedInPage | scanner/types.go:3-44 | every fixed-size type divides the page, so an aligned value never straddles a page boundary |
| Values.DisturbedNeverEqual | scanner/value.go:201-207 | a slot that starts with the disturbing byte never equals an exact pattern, whatever follows |
| Kernel.Memory.ReadablePrefix | memscan.go:283-286 | a transfer delivers the maximal readable prefix: all of it readable, the next byte not |
| Kernel.PageRoundUp | scanner/options.go:17 | the smallest page multiple at or above an address |
| Streams.Stream.OverlapIsBorder | scanner/scanner.go:162-166 | overlapping places exist only for patterns with a border |
| Streams.Stream.AlignedReports | scanner/scanner.go:162-169 | of an aligned value every place is reported |
| Streams.Stream.BorderFreeReports | scanner/scanner.go:162-166 | of a pattern without a border every place is reported |
| RegionReaders.RegionReader.constructor | region_reader.go:27-43 | a reader stands at offset 0 of its region |
| RegionReaders.RegionReader.Seek | region_reader.go:43-60 | the position asked for from start, current or end; a negative one is refused and changes nothing |
| RegionReaders.RegionReader.Read | region_reader.go:62-91 | one transfer stores the maximal readable prefix and moves past it; at the end EOF, on a bad address the raw count and EFAULT |
| RegionReaders.ReadFull | scanner/scanner.go:137-140 | io.ReadFull over the reader: the obtainable bytes stored, the reader past them, and the raw count of the failing call added to the partial one |
| RegionReaders.AlignNextPage | scanner/options.go:12-29 | a jump goes to the next page boundary strictly above the offset, is granted exactly if that lies inside the expected size, and otherwise moves nothing |
| ByteScan.Index | scanner/scanner.go:155-158 | the first occurrence of the pattern at or after a position, or none at all |
| ByteScan.SearchWindow | scanner/scanner.go:150-170 | one window's search reports, in order, exactly the wanted occurrences that no reported one of the window reaches into |
| ByteScan.FirstIsTaken | scanner/scanner.go:155-166 | the first occurrence behind what was reported is itself to be reported |
| ByteScan.SkipSettles | scanner/scanner.go:166-169 | the jump from a misaligned hit to the next multiple passes nothing that is to be reported |
| ByteScan.ReportSettles | scanner/scanner.go:162-166 | stepping a whole value past a report leaves out only occurrences the report reaches into |
| ByteScan.WindowTarget | scanner/scanner.go:130-151 | inside the window of carried and freshly read bytes, wanted occurrences are exactly the places of the memory specification |
| ByteScan.WindowReports | scanner/scanner.go:130-170 | the greedy rule inside a window takes exactly what the memory specification reports: places that share a buffer share the window |
| ByteScan.NoTargetBeforeWindow | scanner/scanner.go:172-177 | nothing that reaches beyond the last buffer starts before the carried size-1 bytes |
| ByteScan.TryAlignNextPage | scanner/scanner.go:112-122 | a jump is tried for every read error but EOF, and only with options |
| ByteScan.ReadClamped | scanner/scanner.go:137-140 | a full read behind the carried bytes: the obtainable bytes stored, and the clamped count and error that report them |
| ByteScan.Refill | scanner/scanner.go:130-140 | carried bytes followed by the counted part of a full read are the region's bytes, and the report says what was obtained |
| ByteScan.KeepTail | scanner/scanner.go:172-177 | the kept tail is the size-1 bytes in front of the next read |
| ByteScan.ShortWindow | scanner/scanner.go:142-148 | a window shorter than the value settles everything that ends inside it |
| ScanPosition.FaultAtPageStart | scanner/options.go:17-21 | a failing read stops exactly at the start of an unreadable page |
| ScanPosition.Resumed | scanner/scanner.go:143-145 | a page jump passes no delivered byte, strictly advances the offset and keeps the answer complete |
| ScanPosition.Ended | scanner/scanner.go:179-184 | where a scan stops without a jump, nothing it should report is left |
| ByteScan.ScanTurn | scanner/scanner.go:125-187 | every turn of the loop keeps position, carried bytes and answer consistent, and strictly advances if it continues |
| ByteScan.ScanBytes | scanner/scanner.go:97-189 | for every value, stream, buffer size and page pattern the reported offsets are exactly those the memory specification reports, up to the stop; it terminates |
| Scanners.ExactAnswers | scanner/scanner.go:153-170 | for aligned values and border-free patterns the offsets reported below the bound are exactly the places of the value |
| FloatScan.WordHitsMembers | scanner/scan_float32_vectorized.go:6-56 | the word-by-word filter holds exactly the word-aligned offsets whose word is in range |
| FloatScan.TestLanes | scanner/scan_float32_vectorized.go:14-47 | one unrolled round of eight loads and tests equals eight steps of the word-by-word filter |
| FloatScan.ScanVectorized | scanner/scan_float32_vectorized.go:6-56 | the unrolled loop and its tail report exactly the word-by-word hits, in order |
| FloatScan.ScanFloatRounded | scanner/scan_float32_rounded.go:12-49 | the chunked float scan reports exactly the aligned words in range that the memory specification asks for, for any stream length and page pattern |
| Scanners.NewScannerBuffer | scanner/scanner.go:41-79 | the buffer is the least multiple of four, or for rounded floats of eight words, with room for the requested size or for a longer value and one byte more |
| Scanners.DefaultBuffer | scanner/scanner.go:37-79 | the default buffer is exactly 65536 bytes for every fixed-size value and every pattern of at most that length; for longer patterns the next multiple of four above the length |
| Scanners.ScanCollector | scanner/scanner.go:81-95 | whichever scanner is chosen, the answer meets the same memory specification (in terms of bytes and ranges: Matching) |
| MmapStore.MmapUint64.constructor | mmap.go:34-54 | a new store is empty and has the capacity asked for |
| MmapStore.MmapUint64.Put | mmap.go:89-101 | within capacity the items are appended; past it nothing is copied, an error is returned, and the cursor has moved all the same |
| MmapStore.MmapUint64.Merge | mmap.go:60-85 | the other store's data is appended across any growth, the old prefix kept; it panics exactly for an overfilled other store |
| MmapStore.MmapUint64.Grow | mmap.go:151-166 | contents survive a growth; a capacity not larger than the present one changes nothing |
| MmapStore.MmapUint64.GetN | mmap.go:114-127 | at most n entries from an offset inside the data, nothing for any other request |
| MmapStore.MmapUint64.Clear | mmap.go:133-139 | no entries are left |
| MmapStore.BatchWriter.Add | memscan_first_scan.go:90-100 | adding through the 512-entry batch appends one entry to what was taken so far |
| MmapStore.BatchWriter.Flush | memscan_first_scan.go:104-106 | after the final Put the store holds exactly what was taken, if it fits, and its cursor counts all of it even if it does not |
| Collectors.Collector.constructor | memscan_next_scan.go:104-130 | a collector starts with an unmoved cursor and nothing seen |
| Collectors.Collector.Collect | memscan_next_scan.go:116-130 | over ascending offsets the taken addresses are exactly the offsets seen that the region lists; a stop is asked for only when no listed address lies ahead |
| VirtualRegions.BinarySearch | memscan.go:156 | the first position not below the target, and whether it holds it |
| VirtualRegions.VirtualRegion.Match | virtual_region.go:40-58 | for ascending queries, true exactly for listed addresses; the cursor never passes an address a later query could hit |
| VirtualRegions.BuildVirtualRegions | virtual_region.go:66-106 | the spans' address lists concatenate to the input, each span runs from the first address's page to the last value's page end, and starts only where the previous could not grow |
| VirtualRegions.SpanBounds | virtual_region.go:66-106 | a span is page-aligned, contains every listed value entirely, and is at most the large size once values are small enough |
| VirtualRegions.GroupedStretches | virtual_region.go:77-104 | letting each address join the last span while its value fits cuts the list into consecutive nonempty stretches with page-aligned bounds |
| VirtualRegions.GroupingCarries | virtual_region.go:66-106 | the grouping is unique: any regions with the stated properties are the spans of that rule |
| VirtualRegions.SpansInNumbers | virtual_region.go:66-106 | consecutive stretches of whole 4096-byte pages; every later value of a span ends within 2097152 bytes of its start, and the value that begins the next one would have ended beyond |
| ScanTasks.Run | memscan_first_scan.go:90-112 | a scan feeding a collector: the store ends with exactly the accepted addresses of the answer, or overfilled |
| ScanTasks.TaskFirstScan | memscan_first_scan.go:80-113 | for every value an uncancelled task takes exactly its region's answer, and a cancelled one the first entries of it |
| ScanTasks.TaskNextScanDense | memscan_next_scan.go:104-143 | for every value an uncancelled dense task takes exactly the listed addresses that hit, and a cancelled one the first of them; the early stop loses none |
| ScanTasks.HitsFit | memscan_next_scan.go:82 | hits in a page-aligned region are at most region size / value size, for values that cannot overlap themselves and for values whose size divides the page |
| ScanTasks.PackedHitsFit | memscan_next_scan.go:82 | hits of a self-overlapping pattern whose size divides the page may overlap, but no two end in the same value-sized block, since buffers and readable runs consist of whole blocks |
| Regions.RegionsOptimize | regions.go:27-95 | the nested merge and split loops compute the recursive plan |
| Regions.MergeStaysSmall | regions.go:39-57 | a merged region never exceeds twice the small size, so the early emit never happens |
| Regions.NextCut | regions.go:62-77 | a piece is nonempty, at most the large size, and ends at a page boundary unless it ends the region |
| Regions.PiecesTile | regions.go:60-86 | the pieces of a large region tile it without gap or overlap |
| Regions.OptimizePlans | regions.go:27-95 | the plan is page-aligned, ascending, disjoint, with true sizes, and every region in it is at most the large size |
| Regions.OptimizeCovers | regions.go:27-95 | a byte is covered by the plan if and only if it is covered by the listing |
| Regions.OptimizeConserves | regions.go:20-95 | the total size is conserved |
| PlanRules.PlanMergesAndCuts | regions.go:27-95 | where planned pieces meet at a listed boundary, one of the three sizes there exceeds 65536; a listed boundary inside a piece has at most 65536 bytes in front and behind; every other cut is through a region above 2097152 bytes, exactly that far behind its piece's start |
| SlotBuffers.SlotsUpdate | memscan.go:268-275 | writing at the start of one slot changes that slot and no other |
| SparseRead.ProcessVMReadv | memscan.go:283 | one scattered read fills the slots of the longest readable prefix of the list, and reports the bytes or the raw failure count |
| SparseRead.CountedWhole | memscan.go:285-286 | the count divided by the value size is the number of whole slots; only a raw -1 of one-byte reads becomes -1 |
| SparseRead.CountedReadv | memscan.go:283-286 | how far one call's count moves the position, for both kinds of failure count |
| SparseRead.ReadTurn | memscan.go:265-298 | one call and the skip behind it leave every slot so far read, or disturbed where the address cannot be read whole |
| SparseRead.ReadValuesRaw | memscan.go:256-303 | it terminates with slot i holding the memory at address i or starting with the disturbing byte; the out-of-bounds and stuck cases happen exactly for one-byte reads with raw counts under conditions on the addresses |
| SparseScan.SlotVerdict | memscan.go:242-245 | a read slot compares equal if the address holds the value, and for exact values only then |
| SparseScan.CollectEqual | memscan.go:237-253 | through the 512-entry batches the store gains exactly the addresses whose slots compare equal, in order |
| SparseScan.FilterResults | memscan.go:234-254 | one batch is read over the buffer's old slots and its equal addresses appended, in order; it fails exactly if the batch jams |
| SparseScan.TaskTurn | memscan_next_scan.go:213-219 | after every batch the answer so far is exact, and the slots hold what the next batch will find stale |
| SparseScan.TaskNextScanSparse | memscan_next_scan.go:200-228 | a task takes exactly its answer, every stale slot determined by the address one batch earlier; it fails exactly if an unreadable address is first in its batch or follows another, for one-byte values with raw counts; its buffer cannot overflow |
| SparseScan.StaleNext | pool.go:15-23 | the buffer starts cleared and a full batch's slots are what the next batch finds |
| SparseScan.JamDecides | memscan.go:265-298 | crash and hang of a batch put together: an unreadable address first in it, or right after another |
| SparseScan.AnswerReported | memscan.go:234-254 | whatever is stale, the answer keeps every address that holds the value, and beyond those only unreadable ones of a rounded float |
| SparseScan.ReportedConcat | memscan_next_scan.go:213-219 | reports on two stretches of an ascending list join to a report on both |
| SparseScan.SettledReport | memscan.go:234-254 | with no stale slot in play a report is the plain filter by the memory |
| SparseScan.KeptReported | memscan_next_scan.go:149-198 | the shares' answers put together report on all previous results, and are their plain filter with no stale slot in play |
| ScanMeaning.HitHolds | memscan_next_scan.go:116-134 | whatever failing reads report, a hit is a place in readable memory that holds the value |
| ScanMeaning.AllReached | scanner/options.go:12-29 | with the region size as expected size the page jumps reach every readable offset |
| ScanMeaning.DenseFindsUnlessCut | memscan_next_scan.go:116-134 | for a value that cannot overlap itself a dense scan finds an address if and only if it holds the value and its last byte is not taken off by a raw count, which depends on the run's length modulo 65536 for all but longer patterns |
| ScanMeaning.RawCountLosesMatch | region_reader.go:86-90 | a concrete memory in which the raw -1 makes a dense scan lose a match that the clamped count finds |
| ScanMeaning.FirstFindsUnlessCut | memscan_first_scan.go:103 | for a value that cannot overlap itself a first scan of a region finds a place if and only if it holds the value, everything from the region's start through it can be read, and no raw count takes its last byte off |
| ScanMeaning.FirstFindsAll | memscan_first_scan.go:103 | over a readable region a first scan hits exactly the places that hold the value |
| TaskRuns.MergeSlots | memscan_next_scan.go:90-96 | the ordered merge appends the concatenation of the slots; it panics exactly if a task overfilled its buffer |
| TaskRuns.RunFirstTasks | memscan_first_scan.go:55-63 | one task per region, each writing its own slot; every task that ended before a cancellation keeps its whole answer, the one it interrupts a first part of its own, and the rest are empty |
| TaskRuns.RunDenseTasks | memscan_next_scan.go:77-83 | one dense task per span, each into a buffer of span size / value size; every task that ended before a cancellation keeps its whole answer, the one it interrupts a first part, the rest are empty |
| TaskRuns.RunSparseTasks | memscan_next_scan.go:162-179 | the tasks took exactly the shares' answers: all of them, or after a cancellation those of exactly the tasks that had ended; it fails only where a batch jams, and then always unless cancelled |
| Session.FirstLayered | memscan_first_scan.go:66-74 | task answers of an ascending listing merge to an ascending list without sorting, which begins with the whole answers of the tasks that ended before any cancellation |
| Session.OverfilledIsTooMany | memscan_first_scan.go:66-74 | the merge panics if an ended task's region has more than 262144 matches, and only if some region has |
| Session.DenseMerged | memscan_next_scan.go:90-99 | the merged dense answers are an ascending part of the results that hold the value, begin with the whole answers of the tasks that ended before any cancellation, and are exactly the spans' answers if there was none |
| Session.OverfilledIsDenseTooMany | memscan_next_scan.go:82-96 | the dense merge panics if the span of an ended task has more hits than room, and only if some span has |
| DenseScans.KeptMembers | memscan_next_scan.go:67-102 | a complete dense scan keeps exactly the aligned results that hold the value and are not cut off in their span, for either kind of count |
| DenseScans.KeptAscending | memscan_next_scan.go:90-99 | what it keeps is ascending |
| DenseScans.DenseIsFilter | memscan_next_scan.go:67-102 | with clamped counts and aligned results the dense strategy equals the plain filter |
| DenseScans.PackedFits | memscan_next_scan.go:82 | no span has too many hits of a value that cannot overlap itself or whose size divides the page |
| DenseScans.TakenParts | memscan_next_scan.go:67-102 | a dense task's answer is a first part of its span's, all of it if the task ended before any cancellation |
| Session.Memscan.constructor | memscan.go:60-72 | a session starts cleared |
| Session.Memscan.Reset | memscan.go:139-150 | both buffers empty, round 0, no undo |
| Session.Memscan.UndoScan | memscan.go:78-87 | undo restores the previous results and round, once; without permission it changes nothing |
| Session.Memscan.SearchInResults | memscan.go:152-161 | the index of an address in the results, or -1 exactly if it is not there |
| Session.Memscan.FirstScan | memscan_first_scan.go:25-78 | the results are ascending and sound in every case and begin with the whole answers of all tasks that ended before a cancellation; an uncancelled scan has, for every value, exactly the merged answers of the planned regions, and panics exactly if some region has too many |
| Session.Memscan.FinishFirst | memscan_first_scan.go:66-77 | merge into the cleared results: they are the tasks' answers in order, in round 1 and without undo; it panics exactly if a slot is overfilled |
| Session.Memscan.FinishNext | memscan_next_scan.go:85-99 | merge into the other buffer, then swap: new results, previous ones kept, round one more, undo allowed |
| Session.Memscan.NextScanDense | memscan_next_scan.go:67-102 | for every value an uncancelled scan keeps exactly the spans' answers and panics exactly if some span has too many hits; a cancelled one begins with the whole answers of the tasks that had ended; for values that cannot overlap themselves or divide the page it never panics |
| Session.Memscan.NextScanSparse | memscan_next_scan.go:149-198 | an uncancelled scan keeps exactly the shares' answers, stale slots included, and fails exactly if a batch jams; a cancelled one keeps exactly those of the tasks that had ended |
| Session.Memscan.NextScan | memscan_next_scan.go:52-65 | more than 32768 results are scanned densely, others sparsely: an uncancelled scan fails exactly where, and keeps exactly what, that strategy does, and a cancelled one keeps what its ended tasks took; with clamped counts, a value that cannot overlap itself, aligned results and nothing stale both branches leave the plain filter |
| SessionRuns.HistoryStepKeeps | memscan.go:78-87 | every operation keeps the session equal to the top of an independent full history of result lists |
| SessionRuns.RunShowsHistory | memscan.go:60-87 | over every run the session shows the history's newest list, keeps the one before it while undo is possible, and the lists ascend and narrow |
| SessionRuns.RunInvariant | memscan.go:139-161 | after any run the results ascend, and canUndo means round >= 2 with the other buffer a superset of the results |
| SessionRuns.UndoRestores | memscan.go:78-87 | whenever undo is possible it takes back the latest next scan that had an effect: results and round are those before it, nothing has changed since, and undo is used up |
| PlannedScans.PlannedPlaces | memscan_first_scan.go:47-74 | for a value that cannot overlap itself, any regions and any unreadable pages the answer holds exactly the places that hold the value and are found in some region |
| PlannedScans.ReadablePlaces | memscan_first_scan.go:47-74 | over readable regions these are the places that hold the value and lie entirely within one region |
| PlannedScans.PlanAscending | memscan_first_scan.go:66-74 | for every value the regions' answers together ascend |
| PlannedScans.FirstScanFindsExactly | memscan_first_scan.go:47-74 | for an aligned or one-byte value over readable regions the answer is the strictly ascending list of the listing's aligned addresses that hold it; planning adds, loses and repeats nothing |
| PlannedScans.PlanningKeepsExactlyWhen | regions.go:27-95 | planning keeps the answer over every readable listing and memory if and only if the value is aligned or a single byte |
| PlannedScans.StraddlingLost | regions.go:60-86 | for every byte pattern of two or more bytes a readable region in which a place across the cut is found unplanned and lost planned |
| PlannedScans.UnreadablePageSplits | regions.go:60-86 | with an unreadable first page planning adds a match even of an aligned value |
| Matching.TypeSizes | scanner/types.go:3-44 | one, two, four or eight bytes for each fixed-size type, any positive number for a pattern |
| Matching.FirstScanMatches | scanner/value.go:185-207 | over readable memory a first scan of a Float32 or Float64 with a range answers with the aligned words in it, of every other value with the places of its bytes, each within one planned region |
| Matching.DenseScanMatches | scanner/value.go:185-207 | likewise a dense scan, among the previous results |
| Matching.SparseScanMatches | scanner/value.go:185-207 | likewise a sparse scan, aligned or not |
| ScanResults.EightBytesFit | memscan_first_scan.go:84 | values of eight or more bytes that cannot overlap themselves or divide the page never overfill a first-scan task's buffer |
| ScanResults.SmallerOverfill | memscan_first_scan.go:84 | for every smaller value that cannot overlap itself and matches some word a memory in which the buffer overflows |
| ScanResults.FirstScanRoom | memscan_first_scan.go:84 | no first scan of a value that cannot overlap itself overfills a buffer if and only if it has eight or more bytes |
| ScanResults.StrategiesAgree | memscan_next_scan.go:52-65 | with clamped counts, over every memory with no stale slot in play, the strategies keep the same if and only if every previous result is aligned for the value's type |
| ScanResults.DenseLosesExactlyCuts | memscan_next_scan.go:52-65 | over aligned results the dense strategy keeps what the sparse one keeps less exactly the values cut off in their span |
| ScanResults.MisalignedSplits | memscan.go:242-245 | a misaligned result that holds the value is kept by the sparse strategy only |
| ScanResults.MisalignedResultSplits | memscan.go:242-245 | a concrete case: over zero memory and the single result 2 the sparse scan for a zero Int32 keeps it, the dense one does not |
| ScanResults.StaleSlotVerdict | memscan.go:288-292 | an unreadable address compares equal if and only if a rounded range accepts the stale slot behind the disturbing byte |
| ScanResults.SparseKeepsUnreadable | memscan_next_scan.go:200-228 | over some memory and results a sparse scan keeps an unreadable address if and only if the comparison accepts some word with the disturbing byte in front |
| ScanResults.UnreadableKept | memscan.go:234-254 | an unreadable result is kept only by a rounded float, exactly if its range accepts the complemented first byte followed by zeros, for the first 1024 of every 32768 results, or by the rest of the readable word 1024 results before |
| ScanResults.FailsExactlyWhen | memscan.go:265-298 | a sparse scan fails exactly for one-byte values with raw counts, at an unreadable result that begins a batch of 1024 or follows another one |
| Overlap.ThirdsReported | scanner/scanner.go:162-177 | of three equal bytes in uniform memory every third offset is reported, counted afresh from the bytes carried into the second buffer |
| Overlap.OverlapOverfills | memscan_next_scan.go:82 | a self-overlapping pattern and results for which a dense scan has 43691 hits and room for 43690 |
| MemoryMaps.IsSkipRegion | maps.go:31-42 | true exactly for names with a listed prefix, never for anonymous mappings |
| MemoryMaps.Parse | maps.go:63-189 | the counters compute the declarative grouping, typing and filtering of the listing (in terms of lines and level numbers: MapGroups) |
| MemoryMaps.LeaveOrJoin | maps.go:93-107 | a line is counted into the open group exactly if it attaches to it and the group has fewer than four mappings |
| MemoryMaps.OpenGroup | maps.go:109-132 | a line outside any group opens one by the declarative rule, and its start becomes the base address |
| MemoryMaps.Keep | maps.go:135-186 | the filters keep exactly the eligible regions the level is after |
| MemoryMaps.CounterBounds | maps.go:76-132 | on every line codeRegions <= 4, isExe implies codeRegions = exeRegions, and not isExe implies exeRegions <= 1 |
| MemoryMaps.GroupShape | maps.go:93-132 | a group is an unbroken run of at most four attached lines from a named opener, which is executable or the executable file's |
| MemoryMaps.GroupBaseShared | maps.go:127-131 | all lines of a group have the same base address and agree on belonging to the executable |
| MemoryMaps.ParsedMembers | maps.go:135-186 | exactly the regions of lines that pass the filters are delivered |
| MemoryMaps.BaseBelowStart | maps.go:127-131 | every base address is the start of the line that opened the group, at or below the region's start |
| MemoryMaps.StricterNarrows | maps.go:153-175 | a stricter level's answer is a looser level's, filtered, with identical types and base addresses |
| MemoryMaps.UnknownExecutable | maps.go:161-172 | the two strictest levels deliver the same on every listing if and only if the executable's name is empty |
| MapGroups.TypeAndBase | maps.go:93-132 | by lines alone: a named executable mapping and the at most three that follow it, and the executable's second mapping and the at most two that follow it, have the type and base address of the first; every other line stands for itself |
| MapGroups.ExecutableOpens | maps.go:109-131 | a named executable mapping always begins a group, based at its own start |
| MapGroups.SkippedNames | maps.go:17-42 | exactly the names that begin with one of the eight listed prefixes are skipped |
| MapGroups.DeliveredRegions | maps.go:63-67 | what levels 0 to 3 deliver, by permissions, name and type; without a level, or with an unknown one, it is level 0 |
| MemoryMaps.ParsedListing | maps.go:63-189 | from the kernel's ascending page-aligned listing every level delivers regions in the shape planning needs |
| ListingScan.ScannedBytes | memscan_first_scan.go:48 | a byte is scanned if and only if its line is readable and writable, not skipped, and private or the executable's |
| ListingScan.PlanOfListing | memscan_first_scan.go:47-50 | the regions of every kernel listing are merged wherever the sizes allow it and cut only where they demand it |
| ListingScan.FirstScanOfListing | memscan_first_scan.go:47-74 | from the kernel's listing to the results, for a value that cannot overlap itself over readable memory: exactly the places that hold it within one planned piece, ascending; for an aligned or one-byte value all its places in the searched lines |
| Fanout.StepParts | memscan_first_scan.go:80-112 | a step of one task touches no other task's phase or slot |
| Fanout.StepInv | memscan_next_scan.go:77-99 | every step of every interleaving keeps the protocol invariant |
| Fanout.StepFits | mmap.go:54-101 | merged slots fit their buffers; only an overfilled slot leads to the panic |
| Fanout.ScheduleIndependent | memscan_next_scan.go:77-99 | every uncancelled interleaving ends in a panic if and only if some task overfills its buffer, and otherwise with the tasks' answers in task order and the previous results in the other buffer |
| Fanout.CancelledIsPart | memscan_next_scan.go:78-80 | a cancelled scan that ends has an ascending part of an ascending full answer, with all that was published before the cancellation |
| Fanout.PublishedCounts | memscan_first_scan.go:55-74 | what a task published before any cancellation stays in its slot to the end: all of it is in the results, or the scan panics because it was more than its buffer had room for |
| Fanout.PermitsBounded | memscan_first_scan.go:56-62 | at most 2048 permits are ever held, and the shared results stay unchanged until the swap |
| Fanout.SomeStepEnabled | memscan_first_scan.go:55-64 | no deadlock: a scan that has not ended always has a step other than cancellation |
| Fanout.StepProgresses | memscan_first_scan.go:55-64 | every such step brings the end closer |
| ConcurrentScans.SparseAnySchedule | memscan_next_scan.go:149-198 | under every schedule a sparse scan without a jamming batch ends with exactly the tasks' answers, stale slots included; the plain filter with none in play |
| ConcurrentScans.DenseAnySchedule | memscan_next_scan.go:67-102 | under every schedule a dense scan, its tasks intersecting with slices of the shared results, panics if and only if some span has too many hits and otherwise ends with exactly the spans' answers |
| ConcurrentScans.StrategyAndScheduleInvisible | memscan_next_scan.go:52-65 | with clamped counts, a value that cannot overlap itself, aligned results and no stale slot in play both strategies end under every schedule with the plain filter |
| ConcurrentScans.FirstAnySchedule | memscan_first_scan.go:47-74 | under every schedule a first scan panics if and only if some planned region has too many matches, and otherwise ends, ascending, with exactly the regions' answers, stated over the memory for values that cannot overlap themselves and over the listing for aligned and one-byte ones |
| ConcurrentScans.FirstCancelled | memscan_first_scan.go:55-74 | a first scan cancelled under any schedule that still ends has an ascending part of its full answer, with the whole answer of every region whose task had published before |
| ConcurrentScans.DenseCancelled | memscan_next_scan.go:77-99 | likewise a dense scan, the previous results kept in the other buffer |
| ConcurrentScans.SparseCancelled | memscan_next_scan.go:162-195 | likewise a sparse scan without a jamming batch |
| ConcurrentPut.StepInv | mmap.go:89-101 | every interleaving of reservations and copies keeps the intervals tiling [0, cursor) and every copied entry in place |
| ConcurrentPut.IntervalsDisjoint | mmap.go:94 | two puts in progress never own a common entry |
| ConcurrentPut.PutsLinearize | mmap.go:89-101 | within capacity the store ends as the concatenation of the puts in reservation order |
| Writes.ProcessVMWritev | memscan.go:339 | one scattered write stores the value at the longest writable prefix of the list and reports the bytes or the raw failure count |
| Writes.CountedCall | memscan.go:341-343 | what one call adds to the total |
| Writes.WriteValues | memscan.go:305-361 | every address got as much of the value as its pages take and the total counts those bytes and the raw failures; it hangs exactly in the jammed case |
| ValueChanges.TotalWritten | memscan.go:341-361 | for an aligned value the total is its size for every address that takes it, less one for every call that writes nothing when counts are raw |
| ValueChanges.HangsExactlyWhen | memscan.go:341-356 | one batch of one-byte writes with raw counts hangs exactly if it begins with an unwritable address or holds two in a row |
| ValueChanges.ChangeHangsExactlyWhen | memscan.go:223-231 | ChangeValues hangs exactly for one-byte values with raw counts, if some unwritable address is the first of its batch or follows another one |
| ValueChanges.ChangeValues | memscan.go:223-231 | the 1024-address batches amount to one write of the whole list, of any length |
| ValueChanges.WritesExactly | memscan.go:223-231 | after writing an aligned value every address in a writable page holds it and no byte outside those values has changed |
| ValueChanges.Selected | memscan.go:207-217 | exactly the results at the valid positions given |
| ValueChanges.ChangeResultsValues | memscan.go:197-221 | the selected results, or all, are written; it panics before any write exactly if more than 1024 are selected |

## Left out

- System calls, mmap, mremap, madvise, munmap, finalizers and pools: replaced by the memory function and growable arrays; their failures and failed allocations are not modelled.
- Errors of the vector calls other than a bad address, and the early exits they cause (memscan.go:294, memscan.go:350).
- Writes that other threads of the process make during a scan: the memory is fixed, as if the process were paused.
- Address overflow near 2^64, and the truncation of 64-bit offsets to `int`.
- IEEE arithmetic: how rounding, extremes and truncation choose their bounds, and comparisons with NaN.
- The text of a map line: parsing starts from lines already split into fields; rejected lines are dropped before.
- Formatting, rendering of results, timing, and pausing and resuming the process.
- `deck/`, `cmd/` and the code generators.
- Closing and destroying buffers, and a session whose buffers could not be allocated.
- Session.Memscan.FirstScan: takes the regions of the listing as an argument; ListingScan connects the parser to it.
- Session.Memscan.NextScan: runs its tasks one after another; Fanout and ConcurrentScans treat the interleavings, with tasks' buffers as lists.
- ConcurrentScans.SparseAnySchedule: a batch that crashes the process or hangs its task is not a step of the interleaving; the scans it concerns are excluded exactly.
- DenseScans.PackedFits: which patterns that overlap themselves and do not divide the page can overfill a buffer is not characterised beyond the one shown in Overlap.
