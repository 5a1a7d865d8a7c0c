# Verified models of the cloudeng.io algorithms

These Dafny modules model parts of the cloudeng.io Go modules and prove what those parts are for.
`dafny verify dfyconfig.toml` checks all of them.

* **Differences of sequences** (`algo/lcs`). `LcsGrid`, `LcsMyers` and `LcsMyersDiff` model the linear-space
  algorithm of Myers: the bidirectional search in its two offset arrays, the divide and conquer around it, and the
  edit script. `LcsDp` models the table algorithm. `LcsSubsequence` says what a longest common subsequence is, by
  index embeddings, and `LcsEditScript` what an edit script is, what applying and reversing one does, and which
  scripts are shortest. Both algorithms are proved against these same definitions, so they agree.
* **Large files** (`file/largefile`). `StreamingCore` is the code that runs under the downloader's mutex, on block
  numbers. `StreamingProtocol` interleaves it with a generator, a bounded request channel, failing fetchers, retries
  and cancellation, and proves what holds in every state of every run. `StreamingDownloader` does the same work on
  bytes, with the heap (`MinHeap`) and the bitmap (`Bitmap`, `ByteRanges`), and refines `StreamingCore`.
  `CacheSteps` is the download cache as the steps between which it can crash; `LocalCache` is the cache on bytes,
  and each of its operations is a run of those steps.
* **The scheduler of a day** (`datetime/schedule`): `Schedule`, on top of `MinHeap`.
* **Variables in YAML** (`cmdutil/cmdyaml`): `ScalarMap`, passes over the definitions of a block against their
  recursive meaning.
* **Calendar** (`datetime`): `Calendar` for packed dates, month tables, days of the year and the next day;
  `CalendarRange` for ranges and for the runs of days that satisfy a constraint.
* **ISO 8601 periods** (`datetime/iso8601.go`): `Iso8601`, a printer and a parser against one grammar.
* **Backoff totals** (`algo/ratecontrol`): `Backoff`, with 64-bit wrap-around written out.
* **A writer that keeps the tail** (`os/executil`): `TailWriter`.

`Common` holds the types and functions, and `Arithmetic` the facts on products and quotients, that several modules
use.

Objects that the Go code updates are classes, loops over arrays are loops over arrays, and recursive builders of
sequences are functions or recursive methods. A loop body of the Go code that is long is a method of its own here
(`LcsMyers.ForwardSnake` is the inner loop of `forwardSearch`, `ScalarMap.Pass` one pass,
`TailWriter.TailWriter.Copy` one chunk, `Iso8601.PrintPart` one unit). Iterators are modelled by the whole sequence
that they yield.

## Where the code and its documentation differ

The models follow the code. Each of these is proved with its exact condition.

* `EditScript.Reverse` is documented as the inverse. The reversed script turns b into a
  (`LcsEditScript.ApplyReversedScript`), but it forgets what was kept: reversing twice gives a script from a to b if
  and only if the original keeps nothing (`LcsEditScript.ReversedTwiceIff`).
* A deletion of the Myers script does not always have its position in b: the deletions of a script are placed where
  they occur if and only if none continues the one before it (`LcsMyersDiff.ShortestEditScript`,
  `LcsMyersDiff.DeletionPositionDrifts`); with b empty they go wrong from two elements on. The table algorithm
  places all deletions (`LcsDp.DP.Ses`).
* `RangeForIndex` is documented to return (-1, -1) for an index past the end; it returns a reversed, empty range
  (`ByteRanges.IndexPastEnd`).
* `ReadAt` is documented to fail if any byte is not cached, aligned or not. A read that is not aligned can touch a
  last block that was not looked at, unless the remainders of its offset and size fit one block
  (`LocalCache.ReadIsCheckedIff`).
* Overwriting a cached block is not crash safe: the block stays marked, and a crash can leave something that is
  neither the old nor the new block if and only if they differ in two bytes or more
  (`CacheSteps.OverwriteIsSafeIff`, `CacheSteps.TornOverwrite`, `CacheSteps.TornRunIsReachable`). Downloading one
  file is safe (`CacheSteps.DownloadIsCrashSafe`).
* A scheduled action that repeats without limit at less than a second never ends (`Schedule.StopsIff`); intervals
  are cut to whole seconds. With a negative interval an action goes back in time, and times are no longer in order
  (`Schedule.AllActive`).
* A later empty definition is documented to overwrite an earlier one; references still see the earlier one
  (`ScalarMap.EmptyHidesIff`, `ScalarMap.EmptyDoesNotHide`).
* `NewCalendarDateRange` puts its ends in order before it normalizes them, which can undo the order
  (`Calendar.NormalizedInOrderIff`, `Calendar.NormalizedOutOfOrder`).
* Iterating over a range whose last day is the last of year 65535 does not end (`CalendarRange.PassesIff`).
* The period printed for the least duration stands for no time at all (`Iso8601.RoundTripIff`,
  `Iso8601.LeastIsNothing`).
* `TotalTimeout` is the sum of the waits if and only if that sum fits 64 bits (`Backoff.TimeoutIsTotalIff`).

## Model

| member | source | states |
|---|---|---|
| `LcsSubsequence.CommonIsBounded` | algo/lcs/dp.go:73-105 | no common subsequence of two prefixes is longer than the table entry |
| `LcsSubsequence.CommonIsAttained` | algo/lcs/dp.go:73-105 | some common subsequence is as long as the table entry |
| `LcsSubsequence.LongestIffLength` | algo/lcs/dp.go:107-118 | a common subsequence is a longest one if and only if it has the length of the last table entry |
| `LcsGrid.DistDiagonalMonotone` | algo/lcs/myers.go:36-48 | moving down a diagonal never lowers the edit distance, so that the furthest point of a diagonal decides |
| `LcsGrid.ThroughCostsAtLeast` | algo/lcs/myers.go:49-57 | a path through a point costs at least the edit distance of the whole |
| `LcsGrid.PointSplits` | algo/lcs/myers.go:93-116 | a point of a cheapest path splits the edit distance into those of the two corners |
| `LcsGrid.ReversedDistance` | algo/lcs/myers.go:61-91 | the edit distance is that of the reversed sequences, which the reverse search explores |
| `LcsMyers.EntryPointReached` | algo/lcs/myers.go:30-40 | the point at which a diagonal is entered is one edit after the furthest points of the neighbours, and no further point is |
| `LcsMyers.SnakeEndIsFurthest` | algo/lcs/myers.go:41-47 | where the matching elements end is the furthest point at that distance on the diagonal |
| `LcsMyers.PastGridIsShorter` | algo/lcs/myers.go:41-57 | points past the grid never report an overlap too early: the distance would be smaller than already excluded |
| `LcsMyers.FirstOverlap` | algo/lcs/myers.go:49-57 | the first overlap of the two searches lies inside the grid, at the sum of their distances, which is the edit distance |
| `LcsMyers.NoOverlapIsLonger` | algo/lcs/myers.go:102-113 | when no diagonal overlaps the edit distance is larger, so that the search goes on and must end |
| `LcsMyers.ForwardSnake` | algo/lcs/myers.go:36-47 | one diagonal of the forward search: the array is read and written in bounds, and the entry becomes the furthest point |
| `LcsMyers.ForwardSearch` | algo/lcs/myers.go:26-59 | either a middle snake, or the furthest points of all diagonals and proof that the distance is larger |
| `LcsMyers.ReverseSnake` | algo/lcs/myers.go:71-80 | the same for one diagonal of the reverse search |
| `LcsMyers.ReverseSearch` | algo/lcs/myers.go:61-91 | the same for all diagonals of the reverse search |
| `LcsMyers.MiddleSnake` | algo/lcs/myers.go:93-116 | for sequences that are not both empty: the true edit distance and a snake in bounds, of equal elements, that splits it; the panic is not reached |
| `LcsMyersDiff.ShorterIsLongestCommon` | algo/lcs/myers.go:128-132 | at a distance of at most one the shorter sequence is a longest common subsequence |
| `LcsMyersDiff.SnakeJoins` | algo/lcs/myers.go:123-128 | longest common subsequences on both sides of a middle snake join to one of the whole |
| `LcsMyersDiff.Lcs` | algo/lcs/myers.go:118-138 | terminates with a longest common subsequence |
| `LcsMyersDiff.Edits` | algo/lcs/myers.go:174-187 | a run of edits at successive positions |
| `LcsMyersDiff.EmptySnakeIsPrefix` | algo/lcs/myers.go:153-164 | where the recursion stops, one sequence is a prefix of the other, one element shorter; the branch that would drop edits is not reached |
| `LcsMyersDiff.ScriptsJoin` | algo/lcs/myers.go:142-152 | cheapest scripts on both sides of a middle snake and the snake itself join to a cheapest script |
| `LcsMyersDiff.Ses` | algo/lcs/myers.go:140-172 | terminates with a script between its parts that costs their edit distance; each of its deletions records how many elements of b are written before it, or is one after the deletion just before it; with b empty it is one run of deletions |
| `LcsMyersDiff.ShortestEditScript` | algo/lcs/myers.go:189-193 | no script from a to b has fewer insertions and deletions: there are len(a) + len(b) - 2 LCS, and what is kept is a longest common subsequence; the deletions are placed in b where they occur if and only if none continues the one before, so certainly if at most one element of a is not in the LCS, and for b empty only then |
| `LcsMyersDiff.DeletionPositionDrifts` | algo/lcs/myers.go:140-187 | the deletions of a script of this kind are placed where they occur if and only if none of them continues the one before it |
| `LcsMyersDiff.DeletionRunDrifts` | algo/lcs/myers.go:174-187 | in a run of deletions the position in b is right exactly for the first, each other one continues, and undoing the run inserts at drifting positions |
| `LcsDp.LongestAtDiagonal` | algo/lcs/dp.go:107-118 | on equal last elements the longest common subsequences are exactly those of the shorter prefixes, extended |
| `LcsDp.LongestAtSides` | algo/lcs/dp.go:107-118 | on different last elements they are those of the sides that the direction names |
| `LcsDp.DP.Fill` | algo/lcs/dp.go:73-105 | every direction says which neighbours have the longer common subsequence |
| `LcsDp.DP.Backtrack` | algo/lcs/dp.go:107-118 | following the directions yields a longest common subsequence of the prefixes |
| `LcsDp.DP.Extend` | algo/lcs/dp.go:120-129 | every path is extended by the element; no path counts as the empty one |
| `LcsDp.DP.BacktrackAll` | algo/lcs/dp.go:131-148 | the paths are exactly the non-empty longest common subsequences of the prefixes |
| `LcsDp.DP.Diff` | algo/lcs/dp.go:150-162 | a script between the prefixes that costs their edit distance, with its deletions placed |
| `LcsDp.DP.Lcs` | algo/lcs/dp.go:51-55 | a longest common subsequence |
| `LcsDp.DP.AllLcs` | algo/lcs/dp.go:57-61 | all the longest common subsequences and no other, or nothing when there is nothing in common |
| `LcsDp.DP.Ses` | algo/lcs/dp.go:63-71 | no script is shorter, and every deletion is at its place in b |
| `LcsEditScript.ScriptIffEnumerates` | algo/lcs/edit.go:23-52 | a monotone path from a to b is exactly a list of edits whose positions enumerate a and b in order |
| `LcsEditScript.ScriptCostsAtLeast` | algo/lcs/edit.go:23-52 | no script from a to b costs less than the edit distance |
| `LcsEditScript.ShortestScript` | algo/lcs/edit.go:23-52 | a script that costs the edit distance is a shortest one and keeps a longest common subsequence |
| `LcsEditScript.Apply` | algo/lcs/edit.go:84-100 | what the edits append, or the sequence itself for an empty script |
| `LcsEditScript.ApplyScript` | algo/lcs/edit.go:84-100 | applying any script from a to b to a gives b |
| `LcsEditScript.Reverse` | algo/lcs/edit.go:102-118 | the reversed edits, one for one |
| `LcsEditScript.ReversedPlaces` | algo/lcs/edit.go:102-118 | the reversed script deletes from b exactly what the script inserts, at its positions, inserts a element by element, and what was kept where b has it |
| `LcsEditScript.ApplyReversedScript` | algo/lcs/edit.go:102-118 | applying the reversed script to b gives a |
| `LcsEditScript.ReversedTwiceIff` | algo/lcs/edit.go:102-118 | a script reversed twice leads to b again if and only if it keeps nothing |
| `MinHeap.RootIsLeast` | algo/container/heap/heap.go:65-70 | the order of parents and children makes the root the least |
| `MinHeap.SmallMovesUp` | algo/container/heap/heap.go:130-144 | exchanging a small entry with its parent leaves it as the only one out of order |
| `MinHeap.LargeMovesDown` | algo/container/heap/heap.go:148-168 | exchanging a large entry with its least child leaves it as the only one out of order |
| `MinHeap.Heap.SiftUp` | algo/container/heap/heap.go:130-144 | restores the order and keeps the entries |
| `MinHeap.Heap.SiftDown` | algo/container/heap/heap.go:148-168 | restores the order up to a limit, keeps the entries, and does not touch those past it |
| `MinHeap.Heap.Push` | algo/container/heap/heap.go:77-82 | adds one entry |
| `MinHeap.Heap.Pop` | algo/container/heap/heap.go:84-96 | removes one entry whose key is the least |
| `Bitmap.PutOthers` | algo/container/bitmap/bitmap.go:36-60 | setting or clearing a bit changes that bit and no other |
| `Bitmap.NextSet` | algo/container/bitmap/bitmap.go:93-109 | skipping words finds the first set bit from a start, or reports none |
| `Bitmap.NextClear` | algo/container/bitmap/bitmap.go:127-143 | skipping words finds the first clear bit from a start, or reports none |
| `Bitmap.Contiguous.Set` | algo/container/bitmap/contiguous.go:85-101 | sets a bit, and keeps track of the first clear one |
| `Bitmap.Contiguous.Tail` | algo/container/bitmap/contiguous.go:103-111 | the last bit of the longest run of set bits from the start on; -1 exactly if there is no such run |
| `ByteRanges.NumBlocks` | file/largefile/large_file.go:141-147 | the least number of blocks that hold the content |
| `ByteRanges.IndexInFile` | file/largefile/large_file.go:141-183 | an index is below the number of blocks if and only if its block starts in the file |
| `ByteRanges.BlocksTile` | file/largefile/byte_ranges.go:126-136 | a range holds a position if and only if `Block` names it: the ranges tile the file, and `Block` is their inverse |
| `ByteRanges.BlocksAdjoin` | file/largefile/large_file.go:170-183 | ranges are not empty and follow one another from the first byte to the last |
| `ByteRanges.IndexPastEnd` | file/largefile/large_file.go:170-183 | an index past the end gives an empty range that is not (-1, -1) |
| `ByteRanges.Ranges.FromBitmap` | file/largefile/byte_ranges.go:200-207 | a saved index gives a tracker of its bits, with its contiguous prefix found |
| `ByteRanges.TotalsConserved` | file/largefile/local_cache.go:247-255 | the bytes of the set and of the clear blocks up to an index total those blocks |
| `ByteRanges.CachedPlusOutstanding` | file/largefile/local_cache.go:247-255 | cached and outstanding bytes total the content, and blocks the number of blocks |
| `ByteRanges.Ranges.Set` | file/largefile/byte_ranges.go:266-274 | marks the block of a position and no other; ignores positions outside the file |
| `ByteRanges.Ranges.NextClear` | file/largefile/byte_ranges.go:95-111 | the first clear block from a start and its range, and where to go on, or none |
| `ByteRanges.Ranges.NextSet` | file/largefile/byte_ranges.go:113-122 | the first set block from a start and its range, and where to go on, or none |
| `ByteRanges.Ranges.Tail` | file/largefile/byte_ranges.go:298-313 | the range of the last block of the contiguous prefix |
| `ByteRanges.Ranges.CachedBytesAndBlocks` | file/largefile/local_cache.go:247-255 | the bytes and the number of the blocks that are set |
| `ByteRanges.Ranges.Complete` | file/largefile/local_cache.go:239-245 | whether every block is set |
| `StreamingCore.WriteKeepsPrefix` | file/largefile/streaming_downloader.go:164-188 | sending the block that comes next raises no error and extends the prefix by it |
| `StreamingCore.DrainInOrder` | file/largefile/streaming_downloader.go:226-240 | draining raises no error, loses nothing, and leaves the awaited block out of the heap |
| `StreamingCore.HandleInOrder` | file/largefile/streaming_downloader.go:207-224 | handling a new block raises no error, keeps the order, and adds just that block |
| `StreamingProtocol.StepInv` | file/largefile/streaming_downloader.go:116-162 | every step of every goroutine, and a request dropped on cancellation, keeps order, conservation and the record of failures |
| `StreamingProtocol.RunInv` | file/largefile/streaming_downloader.go:71-98 | the invariant holds in every state of every interleaving |
| `StreamingProtocol.StreamIsPrefix` | file/largefile/streaming_downloader.go:164-240 | in every reachable state the stream is the contiguous tail of the written blocks, each block is in exactly one place, and no delivery can be out of order |
| `StreamingProtocol.StreamOnlyGrows` | file/largefile/streaming_downloader.go:164-188 | what was sent stays a prefix of what is sent later |
| `StreamingProtocol.RetryAheadOfReissue` | file/largefile/streaming_downloader.go:116-162 | a reissue starts at the block last sent, and a block to be retried lies at or after it |
| `StreamingProtocol.NilErrorMeansComplete` | file/largefile/streaming_downloader.go:71-98 | when all goroutines return without an error the stream is the whole file and the heap is empty, with or without waiting |
| `StreamingDownloader.Downloader.WriteToPipe` | file/largefile/streaming_downloader.go:164-188 | sends the bytes of the next block and marks it; refuses any other block; a closed pipe is reported after the block is tracked |
| `StreamingDownloader.Downloader.Pop` | file/largefile/streaming_downloader.go:229-231 | takes the held response that is earliest in the file |
| `StreamingDownloader.Downloader.Push` | file/largefile/streaming_downloader.go:190-194 | holds one more response |
| `StreamingDownloader.Downloader.DrainCache` | file/largefile/streaming_downloader.go:226-240 | refines draining on block numbers |
| `StreamingDownloader.Downloader.HandleResponse` | file/largefile/streaming_downloader.go:207-224 | refines handling on block numbers, and sends the bytes; a closed pipe is reported |
| `StreamingDownloader.PipeIsFilePrefix` | file/largefile/streaming_downloader.go:164-240 | the bytes sent are the file up to the end of the tracked range, and the whole file once every block is written |
| `StreamingDownloader.DeliveryIsHandled` | file/largefile/streaming_downloader.go:207-240 | in every reachable state the block that a fetcher delivers is one that `HandleResponse` takes, and leads to the next state of the protocol |
| `StreamingDownloader.Deliver` | file/largefile/streaming_downloader.go:207-240 | the delivery of a fetcher, in any run that the downloader carries, succeeds and leaves it carrying the run with that step |
| `StreamingDownloader.OthersKeepCarrying` | file/largefile/streaming_downloader.go:116-162 | the other steps of the protocol leave what the downloader holds alone |
| `StreamingDownloader.RunSendsFile` | file/largefile/streaming_downloader.go:71-98 | a downloader that carries a state of a run has sent the prefix of the file that the stream of blocks stands for, and the whole file when the run ends without an error |
| `CacheSteps.StepInv` | file/largefile/local_cache.go:283-307 | every step of a write, and every crash, keeps marked blocks written and synced |
| `CacheSteps.RunInv` | file/largefile/local_cache.go:283-307 | the same in every state of every run |
| `CacheSteps.CrashKeepsCompletedWrites` | file/largefile/local_cache.go:196-225 | whatever a crash leaves, after any number of earlier crashes, the index found marks only blocks written and synced in full, and those not overwritten since hold their last completed write |
| `CacheSteps.FailedSyncPromisesNothing` | file/largefile/local_cache.go:299-301 | after a failing sync a crash can leave whatever it could leave before, and nothing is marked |
| `CacheSteps.ReadsLastWrite` | file/largefile/local_cache.go:331-352 | a marked block that is not overwritten since its last completed write reads as that write, over any number of crashes |
| `CacheSteps.DownloadIsCrashSafe` | file/largefile/local_cache.go:283-307 | when one file is downloaded, every marked block holds its bytes at every point and after every crash |
| `CacheSteps.CrashLeavesMixture` | file/largefile/local_cache.go:283-307 | a crash while a block is overwritten can leave every mixture of its old and new bytes, and nothing else, with the block still marked |
| `CacheSteps.OverwriteIsSafeIff` | file/largefile/local_cache.go:283-307 | a crash while a cached block is overwritten leaves the old or the new block in every case if and only if they differ in one byte at most |
| `CacheSteps.TornOverwrite` | file/largefile/local_cache.go:283-307 | whenever they differ in two bytes, the marked block can come back as neither |
| `CacheSteps.TornRunIsReachable` | file/largefile/local_cache.go:283-307 | a run of the program, with one crash, that ends with a marked block of bytes that nobody wrote together |
| `CacheSteps.OverwriteIsUnseenIff` | file/largefile/local_cache.go:283-307 | the old block is certain to come back if and only if the bytes are the same |
| `LocalCache.AcceptsExactlyTheBlocks` | file/largefile/local_cache.go:257-280 | an offset and a size are accepted if and only if they are those of a block |
| `LocalCache.RefusedOffsetIff` | file/largefile/local_cache.go:257-280 | an offset is refused if and only if no block starts there, and a size only where one does |
| `LocalCache.Cache.constructor` | file/largefile/local_cache.go:167-194 | a cache over a new file has nothing marked and nothing put |
| `LocalCache.Cache.Reopen` | file/largefile/local_cache.go:167-194 | the cache opened over what a crash leaves, with the bits of the saved index, continues the run |
| `LocalCache.Cache.PutAndSync` | file/largefile/local_cache.go:292-301 | for every fault the error, the number reported, the bytes in the file, and the steps taken: a failing or short write is not synced, a failing sync is reported, and nothing is marked |
| `LocalCache.Cache.MarkAndSave` | file/largefile/local_cache.go:302-306 | marks the synced block in memory and then in the index file |
| `LocalCache.Cache.WriteAt` | file/largefile/local_cache.go:282-307 | refuses what is not a block; otherwise, for every fault, the error, the number reported, the bytes in the file, and the very steps taken: the block is marked if and only if its data was written in full and synced, and then its last completed write is this one |
| `LocalCache.Cache.ValidateCached` | file/largefile/local_cache.go:322-329 | succeeds if and only if the blocks at the offset and at each block size after it are marked |
| `LocalCache.Cache.ReadAt` | file/largefile/local_cache.go:309-352 | the errors of a read, a failing or short one included; the bytes; and that every byte comes from a marked block and is the one last written, whenever the remainders of offset and size fit one block, as they do for aligned offsets |
| `LocalCache.ReadIsCheckedIff` | file/largefile/local_cache.go:322-329 | a successful read touches marked blocks only, whatever is marked, if and only if the remainders of its offset and size fit one block |
| `LocalCache.MarkedIsDownloaded` | file/largefile/local_cache.go:283-352 | a cache that wrote the blocks of one file only, through faults, crashes and reopening, holds its bytes in every marked block |
| `LocalCache.StoreResponse` | file/largefile/caching_downloader.go:137-147 | storing the blocks of one file, with any fault, keeps every marked block equal to the file; a failing or short write and a failing sync are reported and mark nothing |
| `LocalCache.CompleteIsDownloaded` | file/largefile/local_cache.go:239-245 | once every block is marked the cache holds the file |
| `Schedule.AgainIs` | datetime/schedule/repeats.go:50-65 | an action is put back unless it does not repeat, its count is used up or its day would be left; it moves by whole seconds |
| `Schedule.FiringTimes` | datetime/schedule/repeats.go:45-67 | an action fires at its due time and at equal distances within its day, 1 + min(repeats, steps that fit) times if bounded, 1 + steps that fit if not, once if the interval is 0 |
| `Schedule.StopsIff` | datetime/schedule/repeats.go:45-67 | an action stops if and only if its interval is not positive, or is at least a second, or it is counted |
| `Schedule.RepetitionIff` | datetime/schedule/repeats.go:26-67 | a repetition takes place if and only if there is an interval, the count allows for it, and it falls on the due day |
| `Schedule.RepeatManager.constructor` | datetime/schedule/repeats.go:26-43 | every action is pending at its due time, with its interval and count, bounded if and only if neither is zero |
| `Schedule.RepeatManager.HasActions` | datetime/schedule/repeats.go:45-47 | whether any action is pending |
| `Schedule.RepeatManager.Manage` | datetime/schedule/repeats.go:49-67 | takes the pending action that is due first, and leaves the others as they are |
| `Schedule.AllActive` | datetime/schedule/daily.go:104-121 | terminates; each action becomes active at its due time and at steps of whole seconds of its interval, once if that is 0, and otherwise 1 + min(repeats, steps that fit in the day) times, or 1 + the steps that fit if there is no limit; times never decrease if and only if no action with a negative interval fires twice |
| `ScalarMap.MeaningIgnoresDepth` | cmdutil/cmdyaml/scalar_map.go:87-93 | the recursive expansion of a definition is one text, however far it is followed |
| `ScalarMap.UnresolvedIsUntouched` | cmdutil/cmdyaml/scalar_map.go:152-162 | a value whose references have no value is left as its text |
| `ScalarMap.ReferenceIsReplaced` | cmdutil/cmdyaml/scalar_map.go:152-162 | a reference with a value is replaced by it, whatever surrounds it |
| `ScalarMap.AcyclicIffSettled` | cmdutil/cmdyaml/scalar_map.go:87-93 | definitions can be ranked so that references lead downward if and only if all of them have a recursive expansion |
| `ScalarMap.SettledByThen` | cmdutil/cmdyaml/scalar_map.go:129-141 | what can be settled at all is settled after as many steps as there are keys |
| `ScalarMap.ExpandIsMeaning` | cmdutil/cmdyaml/scalar_map.go:152-162 | expanding a value whose references have their meaning gives its own meaning |
| `ScalarMap.Pass` | cmdutil/cmdyaml/scalar_map.go:130-137 | a pass settles one level more; a pass without changes is at a fixpoint |
| `ScalarMap.FixpointIsFinal` | cmdutil/cmdyaml/scalar_map.go:138-140 | a fixpoint gives every settled key its meaning, so that stopping early is right |
| `ScalarMap.FixpointIffFinal` | cmdutil/cmdyaml/scalar_map.go:122-141 | in an acyclic block the meanings are the one fixpoint |
| `ScalarMap.Collect` | cmdutil/cmdyaml/scalar_map.go:100-120 | the last scalar given for each key, each key once, and the keys without a scalar as errors |
| `ScalarMap.DefinedIff` | cmdutil/cmdyaml/scalar_map.go:103-120 | a key is defined as a value if and only if the last entry that gives it a scalar, or an alias of a scalar, gives it this one |
| `ScalarMap.RejectedIff` | cmdutil/cmdyaml/scalar_map.go:106-115 | an entry is rejected if and only if its value is neither a scalar nor an alias of one |
| `ScalarMap.AliasIsScalar` | cmdutil/cmdyaml/scalar_map.go:95-111 | aliases of scalars in place of the scalars change neither the definitions nor the errors |
| `ScalarMap.SameDefinitions` | cmdutil/cmdyaml/scalar_map.go:100-120 | the same entries in another order define the same values |
| `ScalarMap.OrderIsIrrelevant` | cmdutil/cmdyaml/scalar_map.go:87-93 | declared in another order, a block leaves the same value in every variable that reaches no cycle, and the same variables altogether if there is none |
| `ScalarMap.DefinesOne` | cmdutil/cmdyaml/scalar_map.go:100-120 | a block defines one value for each key |
| `ScalarMap.Resolve` | cmdutil/cmdyaml/scalar_map.go:122-141 | at most one pass more than keys gives every settled key its meaning |
| `ScalarMap.Variables.ParseVariablesBlock` | cmdutil/cmdyaml/scalar_map.go:99-150 | every key that reaches no cycle gets its recursive meaning, the other variables stay, and errors name the rejected keys |
| `ScalarMap.EmptyHidesIff` | cmdutil/cmdyaml/scalar_map.go:122-128 | empty definitions hide earlier ones if and only if nothing refers to one with an earlier text |
| `ScalarMap.EmptyDoesNotHide` | cmdutil/cmdyaml/scalar_map.go:122-128 | a block in which an empty definition does not hide an earlier one |
| `Calendar.InitTables` | datetime/yearplace.go:42-68 | the tables hold the days of each month and the days before it |
| `Calendar.YearsInDays` | datetime/yearplace.go:89-108 | before year y lie 365 y days, and one for each fourth year, less one for each hundredth, and one for each four hundredth |
| `Calendar.MonthsInDays` | datetime/yearplace.go:42-68 | the days before each month, in closed form |
| `Calendar.DayOutOfMonth` | datetime/dates.go:218-243 | a day past the end of a month counts as its last, and day 0 as the last of the month before |
| `Calendar.DayOfYearOrder` | datetime/dates.go:231-243 | days of the year are in the order of the dates, one for each, from 1 to 365 or 366 |
| `Calendar.DateFromDay` | datetime/yearplace.go:164-173 | the valid date of that day of the year; the panic is not reached |
| `Calendar.FieldsOf` | datetime/calendar.go:18-32 | a packed date gives back its fields |
| `Calendar.PackedBits` | datetime/calendar.go:20-32 | the fields do not overlap in 32 bits |
| `Calendar.PackedOrder` | datetime/calendar.go:16-22 | packed dates compare like year, month and day |
| `Calendar.OrdinalOrder` | datetime/calendar.go:16-22 | packed dates compare like the numbers of their days |
| `Calendar.TomorrowIsNext` | datetime/calendar.go:263-276 | the next day is a valid date and the next in number, except that the last of all wraps to year 0 |
| `Calendar.YearDayFields` | datetime/yearplace.go:200-208 | a year day gives back its year and day |
| `Calendar.NewYearDayIsLast` | datetime/yearplace.go:200-208 | a day past the end of the year is its last |
| `Calendar.DateOf` | datetime/yearplace.go:175-198 | the date of a year day, at the ends of the year when out of range; inverse to the day of the year |
| `Calendar.NormalizeIsValid` | datetime/calendar.go:179-199 | a valid date of the same year; valid dates are left alone |
| `Calendar.NormalizedInOrderIff` | datetime/calendar_range.go:73-83 | ends in order stay in order if and only if no two months become one with the days the other way round |
| `Calendar.NormalizedOutOfOrder` | datetime/calendar_range.go:73-83 | ends that do not stay in order |
| `CalendarRange.RangeEnds` | datetime/calendar_range.go:18-58 | a packed range gives back its ends |
| `CalendarRange.InYearIsValid` | datetime/calendar_range.go:40-58 | February 29 is read as February 28 exactly in years that do not have it |
| `CalendarRange.BoundIsIntersection` | datetime/calendar_range.go:60-71 | a day is in the bounded range if and only if it is in both |
| `CalendarRange.TomorrowIsAdjacent` | datetime/calendar.go:263-276 | no date lies between a day and the next |
| `CalendarRange.IncludedIsVisited` | datetime/calendar.go:258-261 | a range includes the days that stepping through it visits |
| `CalendarRange.PassesIff` | datetime/calendar_range.go:160-169 | stepping from day to day passes an end if and only if it is not the last day there is |
| `CalendarRange.DatesConstrained` | datetime/calendar_range.go:155-169 | terminates with exactly the included days of the range, in order |
| `CalendarRange.RangesConstrained` | datetime/calendar_range.go:171-199 | terminates with the included days as runs in order that do not touch; a reversed range is returned as it is |
| `CalendarRange.RunsAreUnique` | datetime/calendar_range.go:171-199 | only the maximal runs are such runs |
| `CalendarRange.SameDays` | datetime/calendar_range.go:155-199 | the runs hold the same days as the list of days |
| `Iso8601.ConsumeN` | datetime/iso8601.go:17-34 | a number and its designator, found at the first character that is neither digit nor dot |
| `Iso8601.NumberOf` | datetime/iso8601.go:17-34 | the value of digits, and of digits around a dot |
| `Iso8601.NumberIff` | datetime/iso8601.go:17-34 | nothing else is a number |
| `Iso8601.WholeConcat` | datetime/iso8601.go:17-34 | digits count for ten times the digit after them |
| `Iso8601.AmountIs` | datetime/iso8601.go:36-60 | the units in nanoseconds, and an amount cut to whole nanoseconds |
| `Iso8601.ParsedIsMeant` | datetime/iso8601.go:63-106 | what is accepted is the text of tokens with that sum |
| `Iso8601.MeantIsParsed` | datetime/iso8601.go:63-106 | the text of tokens with a sum is accepted with that sum |
| `Iso8601.ParsedIffMeant` | datetime/iso8601.go:62-106 | the parser accepts exactly the periods, and returns what they mean |
| `Iso8601.ParseISO8601Period` | datetime/iso8601.go:62-106 | the loop returns a value if and only if the text is a period of that length |
| `Iso8601.WithFraction` | datetime/iso8601.go:62-106 | PT1.5M is 90 seconds and PT1.5S is 1.5 seconds |
| `Iso8601.DecimalIsWhole` | datetime/iso8601.go:115-118 | a number is printed in its digits, without leading zeros |
| `Iso8601.LeftOf` | datetime/iso8601.go:115-118 | what a unit takes and what it leaves make up the duration, and less than the unit is left |
| `Iso8601.PartsSum` | datetime/iso8601.go:115-160 | the parts printed sum up to what they take from the duration |
| `Iso8601.TokensSum` | datetime/iso8601.go:108-162 | what is printed means the duration in whole seconds |
| `Iso8601.CanonicalForm` | datetime/iso8601.go:108-162 | the printer takes as many years as fit, then months, weeks, days, hours, minutes and seconds, leaves out what there is none of, and writes a T if less than a day is left over |
| `Iso8601.AsISO8601Period` | datetime/iso8601.go:108-162 | the text is a period of the whole seconds of the duration, for every duration but the least |
| `Iso8601.RoundTripIff` | datetime/iso8601.go:62-162 | parsing the printed text gives the duration cut to whole seconds if and only if it is not the least duration |
| `Iso8601.LeastIsNothing` | datetime/iso8601.go:108-114 | the least duration is printed as no time at all |
| `Backoff.TotalIs` | algo/ratecontrol/backoff.go:107-140 | the delays total initial * (2^steps - 1) while that fits 64 bits, and do not fit either where it does not |
| `Backoff.TotalTimeout` | algo/ratecontrol/ratecontrol_config.go:41-63 | the smaller of initial * (2^steps - 1) and the largest 64-bit integer, and the smaller of that and the total of the delays |
| `Backoff.TimeoutIsTotalIff` | algo/ratecontrol/ratecontrol_config.go:41-63 | the timeout is the total of the delays if and only if the product fits |
| `Backoff.ExponentialBackoff.constructor` | algo/ratecontrol/backoff.go:88-99 | defaults replace an interval or a number of steps that is not positive |
| `Backoff.ExponentialBackoff.Wait` | algo/ratecontrol/backoff.go:106-124 | each wait takes the delay of its retry; it stops at the limit, and cancelling records no retry |
| `Backoff.ExponentialBackoff.Next` | algo/ratecontrol/backoff.go:126-140 | each timer gets the delay of its retry, none at the limit |
| `Backoff.RetryUntilDone` | algo/ratecontrol/backoff.go:37-55 | a client that retries to the end waits for the total of the delays |
| `TailWriter.LastOfLasts` | os/executil/tail.go:31-52 | keeping the last bytes write by write is keeping the last bytes of all |
| `TailWriter.CopyAdds` | os/executil/tail.go:43-50 | copying a chunk adds it to what the ring holds, also where the ring wraps |
| `TailWriter.TailWriter.Copy` | os/executil/tail.go:43-48 | one chunk is copied up to the end of the buffer |
| `TailWriter.TailWriter.Write` | os/executil/tail.go:31-52 | the whole write is reported and taken into account, also when longer than the buffer or when there is no buffer |
| `TailWriter.TailWriter.Bytes` | os/executil/tail.go:54-69 | the last bytes of all that was written, as many as fit |

## Left out

- 32-bit overflow of the indexes in the Myers search: integers are unbounded.
- `fmt` output, `Fprint`, `FormatVertical`, `FormatHorizontal` of `algo/lcs`.
- Heaps of greatest elements, callbacks, `Remove`, `Update` and `Fix` of `algo/container/heap`. Its two heaps,
  `generic.go` and `heap.go`, sift in the same way and are one class here, ordered by an integer key.
- Notification channels of the bitmap and of the retry tracker: in the protocol the generator may wake up at any
  time, so that nothing is proved about whether a wake-up can be lost, nor that a download ever completes.
- The retry tracker is a set of blocks in the protocol.
- A pipe that fails is modelled on bytes (`StreamingDownloader.Downloader.HandleResponse` reports it and leaves the
  stream as it was), not in the protocol, where writes to the pipe succeed.
- The caching downloader besides the storing of a response.
- Empty files in the downloaders: the source makes no block tracker for them.
- Statistics, progress reports, rate control, request backoff from server responses and the digests of large files.
- The JSON text of the index and of bitmaps; saving the index is one step, which may fail, and may have reached the
  disk or not.
- The cache's `Tail`, which waits for extension, its `Close`, and the errors of a cache that is closed.
- Time zones and daylight saving in the scheduler, dynamic due times and sorting of actions: a day has 86400
  seconds.
- Schedule.AllActive: is stated for actions that stop; `Schedule.StopsIff` says which those are.
- The tokens that `os.Expand` finds in a value: values are given as literal and reference parts. Reading YAML
  documents.
- `Yesterday`, the merging of date lists and date ranges, text formats of dates, and `Date` without a year.
- CalendarRange.DatesConstrained: is stated for ranges of valid dates that end before the last day of year 65535,
  past which the loop does not end (`CalendarRange.PassesIff`).
- CalendarRange.RangesConstrained: as for `CalendarRange.DatesConstrained`. The consumer of an iterator may stop it
  early, and then has a prefix of the sequence.
- The date range 0, whose months do not exist.
- Iso8601.ParseISO8601Period: numbers are exact, where the source rounds to 64-bit floating point, and the sum is
  not wrapped to 64 bits; every product that the printer's output leads to is exact and fits.
- Random offsets of the first delay of a backoff.
- TailWriter.TailWriter.Write: the mutex; calls are one after another.
- Evaluation of boolean expressions, command line, cloud, key and network packages.
