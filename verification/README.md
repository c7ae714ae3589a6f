# Verified models of a malloc lab

The repository holds several dynamic storage allocators that stand on a simulated break
(`memlib.c`), a driver that replays allocation traces against one of them (`mdriver.c`), a
sampler for timings (`fcyc.c`) and a script that checks and balances traces
(`traces/checktrace.pl`). This project models them in Dafny and proves what each of them
is for. `dafny verify dfyconfig.toml` checks everything.

## How the model is built

* **Memory** (`Memory`). The heap is one byte array with a break that only grows. A pointer
  is a byte offset, 0 stands for NULL, and a word is four bytes, least significant first.
  `PUT`, `GET`, `memcpy` and `memset` act on those bytes, so a tag, a link and a client's
  data are views of the same bytes and every proof has to show that they do not collide.
* **Boundary tags** (`Tiling`, `Tags`). A ghost map from block to size and allocation bit
  describes the heap. It is exact: the blocks fill the heap without gap or overlap. `Tags`
  ties it to the header and footer words.
* **Free lists** (`Links`, `SizeClasses`, `SegLists`, `RootLists`). Ghost sequences describe
  the lists; `Linked` ties them to the link words inside the free payloads.
* **Allocators.** Each one is a class over memory whose methods follow the C functions. Its
  invariant joins memory, tiling, lists and the globals of the source. What a function does
  is stated by a function on an abstract state (`ExplicitSpec`, `SegSpec`, `SegPlace`,
  `Seg98Spec`, `NextFitSpec`, `TaggedSpec`, `PrologueSpec`), about which the properties are
  proved as lemmas.
* **Laws** (`Order`, `ExplicitLaw`, `SegLaw`, `Seg98Law`, `NextFitLaw`, `PrologueLaw`,
  `TaggedLaw`). For each allocator a second statement of `mm_malloc`, `mm_free` and
  `mm_realloc` that names none of the functions that compute them: which free block is taken
  and which bytes of it, where the break goes, the order of every list, the roving pointer,
  the tags. A state and a pointer obey the law if and only if they are the specified ones,
  since the live blocks alone determine a tiling without free neighbours. The methods promise
  the laws.
* **Clients** (`AbstractHeap`, `Contents`). Clients see a map from live pointers to bytes.
  `malloc`, `free` and `realloc` are proved to be steps on that map.
* **The driver** (`Trace`, `Ranges`, `DriverSpec`, `Replay`, `Driver`) is composed with the
  verified `mm.c`. `Replay` folds the specification of `mm.c` over a trace; the driver is
  proved to follow it, which gives end-to-end theorems whose conditions speak of the trace.
* **The script and the driver** (`CheckTrace`, `RepTrace`). What the script accepts is related
  to what the driver can interpret.
* **Runs** (`Runs`, `Witnesses`). For whole sequences of calls: what holds in every reachable
  state, how long a reservation lasts, and runs that end where the code falls short.

| files | source |
|---|---|
| `ExplicitSpec.dfy`, `ExplicitLaw.dfy`, `Explicit.dfy` | `mm.c`, explicit free list, first fit |
| `SegSpec.dfy`, `SegPlace.dfy`, `SegLaw.dfy`, `SegLists.dfy`, `SegHeap.dfy`, `Seg84.dfy` | `giyoun/Segregated/segreted(84).c`, 20 size classes |
| `Seg98Spec.dfy`, `Seg98Law.dfy`, `Seg98.dfy` | `giyoun/Segregated/(98)정리.c`, two-sided placement, growth in place |
| `TagBits.dfy`, `TaggedSpec.dfy`, `TaggedLaw.dfy`, `TaggedAlloc.dfy` | `giyoun/Segregated/참고(98).c`, reallocation tags |
| `RootLists.dfy`, `PrologueSpec.dfy`, `PrologueLaw.dfy`, `Prologue.dfy` | `giyoun/Segregated/prologue.c`, list roots inside the heap |
| `NextFitSpec.dfy`, `NextFitLaw.dfy`, `NextFit.dfy` | `giyoun/implicit/implicit.c`, next fit |
| `Trace.dfy`, `Replay.dfy`, `Ranges.dfy`, `DriverSpec.dfy`, `Driver.dfy` | `mdriver.c` |
| `Sampler.dfy` | `fcyc.c` |
| `CheckTrace.dfy`, `RepTrace.dfy` | `traces/checktrace.pl`, and `read_trace` of `mdriver.c` line by line |

## What the proofs found

* The driver compares plain `char` with `index & 0xFF`. With a signed `char` a realloc of an
  id whose low byte is 128 or more is reported as lost data although the allocator is
  correct; `Driver.TraceDriver.EvalMmValid` has the exact condition and
  `Replay.SignedCharTrace` a trace.
* The overlap test of `add_range` misses an extent that strictly contains a listed one
  (`Ranges.DetectsWhen`, `Ranges.MissedOverlap`). It never refuses disjoint extents.
* In `insert_block` the size has been shifted down before it is compared, so every insertion
  is at the head (`SizeClasses.AlwaysAtHead`). A list stays ascending exactly when the block
  that comes in is no larger than the head (`SizeClasses.AscendingIff`);
  `OrderWitness.OutOfOrder` is a run after which one is not.
* `mm_realloc` of the two allocators named 98 measures an extension as if it were contiguous
  with the block. Whenever its in-place branch is taken, it leaves a heap in order exactly
  under `Seg98Spec.GrowsInPlace` (`Seg98Spec.SoundIff`), with reallocation tags exactly under
  `TaggedSpec.TagGrowsInPlace` (`TaggedSpec.TagSoundIff`), in both cases for requests less
  than 2^31 above the block. `InPlaceWitness.NextTooSmall` and `TagWitness.ReservedLast` are
  runs to states where it does not.
* In the one without tags a last block that need not grow takes that branch too, and what is
  unlinked is the epilogue, whose link words would lie beyond the break
  (`Seg98Spec.EpilogueUnlinked`, `InPlaceWitness.LastNeedNotGrow`). The one with tags asks
  first whether the block is large enough.
* `traces/checktrace.pl` compares ids as strings and the driver as numbers, so two spellings
  of one number pass the script (`RepTrace.TwoSpellings`); `RepTrace.AcceptedIff` has the
  exact condition.
* Rounding wraps for requests within 15 bytes of 2^32 (`Requests.AsizeCovers`), and the
  remainder read back as an int is wrong for requests more than 2^31 above what is there
  (`Seg98Spec.RemainderExact`).
* A command other than a, r and f in a trace counts as an allocation
  (`CheckTrace.UnknownCommandAllocates`).

## Model

| member | source | states |
|---|---|---|
| Memory.MemLib.Sbrk | memlib.c:58-69 | a negative request or one beyond 20 MB fails and changes nothing but the out-of-memory mark; any other returns the old break and raises the break by exactly that much |
| Memory.MemLib.ResetBrk | memlib.c:48-51 | the break returns to the start of the heap |
| Memory.ToInt | memlib.c:58 | the int an unsigned request arrives as: congruent modulo 2^32 and in the range of int |
| Memory.WordIsBytes | mm.c:63 | GET shows the same word in two memories if and only if the four bytes there are the same |
| Memory.MemLib.Put | mm.c:65 | writing a word changes that word, no byte outside it and no word beside it |
| Memory.MemLib.Copy | mm.c:357 | memcpy of disjoint ranges moves the bytes and changes nothing outside the target |
| Memory.MemLib.CopySnapshot | giyoun/Segregated/(98)정리.c:487 | the same for ranges that may overlap, under the assumption that the source is read before the target is written |
| Memory.MemLib.Fill | mdriver.c:625 | memset sets exactly the bytes asked for |
| Tiling.Covers | mm.c:75-85 | every byte between the first header and the epilogue lies in exactly one block, its own header and footer included |
| Tiling.FuseTiled | mm.c:189-211 | fusing consecutive blocks from a client block on leaves an exact tiling |
| Tiling.SplitTiled | mm.c:279-287 | cutting a free block into two parts of at least 16 aligned bytes leaves an exact tiling |
| Tiling.GrowTiled | mm.c:149-156 | a block added at the break extends the tiling to the new break |
| Tiling.MergedNoAdjacent | mm.c:184-211 | if the freed block was the only one that could be next to a free one, no two free blocks are neighbours after the merge |
| Tiling.MergedLive | mm.c:184-211 | a merge changes no live block |
| Links.Insert | mm.c:327-332 | setting four link words inserts a node at any position of a well-formed doubly linked list |
| Links.Remove | mm.c:303-322 | setting two link words removes the node at any position, and the backward links again invert the forward links |
| Links.Unlink | mm.c:303-322 | either order of the two unlinking writes removes exactly the node |
| Links.LinkIn | giyoun/Segregated/segreted(84).c:378-403 | either order of the linking writes inserts exactly the node |
| Links.OtherWrite | mm.c:281-287 | a write away from the link words of all nodes leaves the list alone |
| Tags.PutTags | mm.c:281-282 | the two PUTs of a header and a footer put one block in order and disturb no other tag, no epilogue and no live payload |
| Tags.Neighbours | mm.c:179-181 | reading through header and footer words yields the physical neighbours, their allocation bits and the size, exactly as the tiling has them |
| Tags.ReadNeighbours | mm.c:75-85 | what the tag words on both sides of a block say, the epilogue included |
| Tags.BlockWrite | mm.c:281-287 | a write inside one block disturbs the tags of no other block, and no live payload if the block is not live or a tag is hit |
| Tags.PayloadWriteKeepsTags | mm.c:327-332 | a write inside a payload hits no tag of any block and not the epilogue |
| Tags.TagsKeepLinks | mm.c:281-290 | tags and link words never overlap |
| Tags.ClientWrite | mdriver.c:625 | arbitrary client writes inside a payload keep every tag |
| Tags.ClientWriteLinks | mdriver.c:625 | arbitrary client writes inside a payload keep every free list |
| Requests.AsizeOk | mm.c:231 | a rounded request is aligned, at least 16 and between size + 8 and size + 15 |
| Requests.AsizeCovers | mm.c:231 | the 32-bit rounding makes room for the request if and only if size + 15 does not wrap |
| Requests.RoundedSize | giyoun/Segregated/(98)정리.c:376-381 | both branches of the size adjustment give the rounded size |
| Requests.FirstFitFinds | mm.c:258-264 | the search of a list returns the first large enough block and NULL exactly if there is none |
| ExplicitSpec.CoalesceInv | mm.c:178-217 | in all four cases the merge restores the invariant: exact tiling, no adjacent free blocks, each free block listed exactly once |
| ExplicitSpec.CoalesceLive | mm.c:178-217 | a merge changes no live block |
| ExplicitSpec.PlaceInv | mm.c:270-298 | both branches of place restore the invariant |
| ExplicitSpec.PlaceLive | mm.c:270-298 | place makes exactly one block live, of asize to asize + 8 bytes |
| ExplicitSpec.FindFitOk | mm.c:254-265 | find_fit fails if and only if no free block anywhere in the heap is large enough |
| ExplicitSpec.ExtendInv | mm.c:142-159 | the extended heap keeps the invariant and all live blocks, and returns a free block of at least the bytes asked for |
| ExplicitSpec.MallocOutcome | mm.c:222-249 | mm_malloc returns NULL if and only if the request is empty or nothing fits and the heap cannot grow by max(asize, 4096); then nothing changes, and the break moves only when nothing fits |
| ExplicitSpec.MallocGrants | mm.c:222-249 | a granted block is new, aligned and of size + 8 to size + 23 bytes; no other live block changes; the invariant holds (which block it is: ExplicitLaw.MallocIff) |
| ExplicitSpec.FreeOk | mm.c:165-173 | mm_free ends the life of its block and of no other, keeps the invariant and the break |
| ExplicitSpec.ReallocOk | mm.c:337-360 | mm_realloc replaces its block and nothing else, or fails exactly when mm_malloc would and changes nothing |
| ExplicitSpec.InitialOk | mm.c:115-137 | after mm_init the invariant holds, nothing is live and the break is at 4120 |
| Order.TilingDetermined | mm.c:75-85 | two heaps with the same prologue, break and live blocks, neither with two free neighbours, have the same blocks throughout |
| Order.RelistedUnique | mm.c:327-332 | what survives of the old lists, in the old order, with one new head, is one family of lists |
| ExplicitLaw.MallocIff | mm.c:222-249 | mm_malloc has exactly one lawful outcome, and that is what is specified: it takes the first block on the list that has asize bytes, or if no free block has them the end of a heap grown by asize or 4096, joined with a free block there; all of it if fewer than 16 bytes are left, else asize bytes, the rest then heading the list, which otherwise keeps its order |
| ExplicitLaw.FreeIff | mm.c:165-217 | mm_free has exactly one lawful outcome: the block is given up, no two free blocks are neighbours, the free block that covers it heads the list, and what survives of the list keeps its order |
| ExplicitLaw.ReallocIff | mm.c:337-360 | mm_realloc has exactly one lawful outcome: the block that mm_malloc returns, and if there is one the old block freed |
| ExplicitLaw.InitialIff | mm.c:115-137 | the state after mm_init is the only sound one with the break at 24 + 4096 and nothing live |
| Explicit.Allocator.RemoveBlock | mm.c:303-322 | both cases take exactly the block off the list in memory; tags and live payloads stay |
| Explicit.Allocator.PutFreeBlock | mm.c:327-332 | the block becomes the head of the list in memory; tags and live payloads stay |
| Explicit.Allocator.Coalesce | mm.c:178-217 | the words in memory after coalesce hold the merged tiling and list, every live payload byte being kept |
| Explicit.Allocator.FindFit | mm.c:254-265 | walking the links in memory returns the first listed block that fits |
| Explicit.Allocator.Place | mm.c:270-298 | the words in memory after place hold the new tiling and list, every live payload byte being kept |
| Explicit.Allocator.ExtendHeap | mm.c:142-159 | sbrk, the three PUTs and the merge extend the heap in memory; if sbrk fails nothing changes |
| Explicit.Allocator.Init | mm.c:115-137 | from an empty heap mm_init returns 0 and leaves the initial state |
| Explicit.Allocator.Malloc | mm.c:222-249 | refines the abstract allocator: NULL and no change, or one new entry of size to size + 15 bytes and nothing else; block, break and list are the lawful ones: first fit on the list, or the end of the grown heap |
| Explicit.Allocator.Free | mm.c:165-173 | refines the abstract allocator: exactly the freed entry disappears and all other contents stay; the list is the lawful one, headed by the free block that covers the freed one |
| Explicit.Allocator.Realloc | mm.c:337-360 | refines the abstract allocator: on success the first min(size, old payload) bytes are at the new pointer and all other contents stay; on failure nothing changes; the block returned is the one mm_malloc takes by its law |
| Explicit.Allocator.CopyOver | mm.c:351-357 | n = min(size, block size) bytes are copied: the reads end with the block, that is with its footer and the next header, and below the break; they miss the bytes written, which lie in the new payload; the data arrives and all other payloads stay |
| Contents.CopyBlock | mm.c:351-357 | the same extent for any allocator with boundary tags, and the copy step clients see |
| Explicit.Allocator.Memset | mdriver.c:625 | clients may write any bytes into their payloads: the allocator's invariant is unaffected |
| Explicit.Allocator.PayloadsPlaced | mdriver.c:388-416 | live payloads are aligned to 8, inside the heap and pairwise disjoint |
| Contents.GrantSeen | mm.c:222-249 | keeping live bytes and adding one block is a malloc step of the abstract allocator |
| Contents.DropSeen | mm.c:165-173 | keeping the other live bytes and dropping one block is a free step |
| Contents.CopySeen | mm.c:351-357 | an over-reading copy is still a copy step: the target's first bytes are the source's, all other payloads stay |
| Contents.LiveApart | mm.c:351-357 | source block with footer and next header, and target payload, do not meet |
| Contents.PlacedSeen | mdriver.c:388-416 | live payloads are aligned, inside the heap and disjoint for any tiling in memory |
| AbstractHeap.MovedData | mm.c:346-359 | malloc, copy and free in sequence make a realloc of the abstract allocator |
| ExplicitRuns.ReachableInv | mm.c:115-360 | every state reached by any sequence of legal calls keeps the invariant, and the break never falls |
| ExplicitRuns.ReachableHeap | mm.c:115-360 | in every state reached from mm_init the free list holds exactly the free blocks, each once, no two are neighbours, and each heap byte belongs to exactly one block |
| Trace.OutstandingIds | mdriver.c:597-681 | an id that is outstanding at some point of a well-formed trace is one of the trace's ids |
| Trace.TotalStep | mdriver.c:727-769 | adding, replacing or subtracting a size keeps the running total equal to the sum of the outstanding sizes |
| Trace.PeakIsMaximum | mdriver.c:732-756 | the recorded peak is at least the demand at every point of the trace and is attained at one |
| Trace.PeakStep | mdriver.c:732-756 | one request updates the peak as the driver does; a free never sets a new one |
| Ranges.DetectsWhen | mdriver.c:408-416 | the overlap test reports an extent if and only if it overlaps and does not stick out on both sides |
| Ranges.MissedOverlap | mdriver.c:408-416 | a concrete overlap that the test does not notice |
| Ranges.RangeList.AddRange | mdriver.c:381-429 | accepts an extent exactly if it is aligned, inside the heap and not detected, and then puts it in front; else the list stays |
| Ranges.RangeList.RemoveRange | mdriver.c:434-449 | takes the first extent that starts at lo off the list, whatever its place, and leaves the others in order |
| Ranges.RangeList.ClearRanges | mdriver.c:454-464 | leaves the empty list |
| Ranges.RemoveFirstAt | mdriver.c:440-447 | which entry removal takes, and what the list is after it |
| DriverSpec.NewRange | mdriver.c:617 | a block that was placed apart from all others always passes the overlap test |
| DriverSpec.ExtentsMove | mdriver.c:642-645 | if the list held exactly the extents of the outstanding requests, it does so again after a realloc: the old extent went and the new one came |
| DriverSpec.ExtentsDrop | mdriver.c:669-675 | after a free the list holds exactly the extents of the requests still outstanding |
| DriverSpec.DemandFits | mdriver.c:777 | outstanding requests lie apart below the break, so their sum does not exceed it |
| Replay.FollowTracks | mdriver.c:597-681 | in a replay the outstanding ids have distinct live blocks, every live block belongs to one of them, and the allocator keeps its invariant, whatever the trace |
| Replay.FollowsIff | mdriver.c:607-637 | a request gets through exactly if it is a free, or asks for something and a free block fits or the heap can grow by max(asize, 4096) |
| Replay.StaysStuck | mdriver.c:607-637 | once the allocator has returned NULL the whole trace fails |
| Replay.HeapBounded | mdriver.c:577-685 | if the requests, each taken as max(asize, 4096), add up to no more than the heap can hold, the replay never fails |
| Replay.SignedCharTrace | mdriver.c:653-661 | two requests on id 128 that the allocator serves and the driver refuses |
| Driver.TraceDriver.DoAlloc | mdriver.c:604-630 | an ALLOC request gets past exactly if the allocator, followed on its specification, returns a block; then the books stay true, the range list holds exactly the extents of the outstanding requests, and state and blocks are where the replay is |
| Driver.TraceDriver.DoRealloc | mdriver.c:632-667 | a REALLOC request gets past exactly if the allocator, followed on its specification, returns a block and the low byte of the id is below 128 |
| Driver.TraceDriver.SameData | mdriver.c:653-661 | the comparison loop accepts exactly if all bytes, taken as signed, equal the low byte of the id |
| Driver.TraceDriver.DoFree | mdriver.c:669-675 | a FREE request always gets past and takes exactly its block out of the books and its extent off the range list |
| Driver.TraceDriver.EvalMmValid | mdriver.c:577-685 | end to end on mm.c: for every well-formed trace the result is 1 if and only if no compared id has a low byte of 128 or more and the specified allocator, replayed on the trace, never returns NULL; a condition on the trace alone |
| Driver.TraceDriver.EvalMmUtil | mdriver.c:698-778 | end to end on mm.c: exactly if the replay never returns NULL, the utilisation is the peak of the outstanding demand over the final heap size of the replay, and it never exceeds 1 |
| Sampler.KSmallestUnique | fcyc.c:67-88 | the sorted k smallest of a sequence of samples are determined uniquely |
| Sampler.KBest.AddSample | fcyc.c:67-88 | after any samples the buffer holds the min(n, kbest) smallest, as a multiset, in ascending order |
| Sampler.KBest.SortIn | fcyc.c:81-87 | the insertion loop sorts and permutes |
| Sampler.KBest.FirstIsLeast | fcyc.c:162 | the first entry is a sample and none is smaller |
| Sampler.KBest.Fcyc | fcyc.c:129-168 | the result is the least measurement made; the loop stops at the first measurement, and no earlier, after which kbest of those made are at most (1 + epsilon) times the least one or maxsamples is reached; so an early stop guarantees kbest measurements within that bound of the result |
| Sampler.ConvergedIff | fcyc.c:93-98 | the test on the first and the last of the k smallest succeeds if and only if at least k samples are at most (1 + epsilon) times the least one |
| Sampler.KthAtMost | fcyc.c:93-98 | at least k samples are at most b if and only if the last of the k smallest is |
| CheckTrace.Checker.ReadTrace | traces/checktrace.pl:70-116 | the loop accepts exactly the inputs whose lines are all legal, saves the lines that have a command, all of them and in order, and tallies the ids that are held |
| CheckTrace.ScanIff | traces/checktrace.pl:70-116 | on the input alone: the scan succeeds if and only if every r and f names an id held at that line and no a names one held by an a; then the saved lines are those of the input with a command, and the hash maps each held id to the command of the last line, r aside, that names it |
| CheckTrace.SplitLine | traces/checktrace.pl:74 | a line is blanks, the command, blanks, the id and the rest; command and id are whole words, empty only if nothing but blanks is left |
| CheckTrace.Checker.Emit | traces/checktrace.pl:134-153 | the output is the saved lines followed by one free for each outstanding id, with the number of requests raised by as many; it dies exactly if some id was named last by an unknown command |
| CheckTrace.SavedLines | traces/checktrace.pl:76-82 | only lines with a command are saved, and scanning them alone gives the same result |
| CheckTrace.Balanced | traces/checktrace.pl:68-153 | the output is all lines of the input that have a command, in order, and then the frees; it scans without error to an empty residue and is saved whole, and its count is right if the input's was |
| CheckTrace.BalancedTwice | traces/checktrace.pl:134-153 | balancing a balanced trace adds nothing |
| CheckTrace.NamesLiveIds | traces/checktrace.pl:85-112 | in an accepted trace every f and every r names an id outstanding at that line |
| CheckTrace.KnownAreBalanceable | traces/checktrace.pl:148-153 | if only a, r and f occur, the output never dies |
| CheckTrace.UnknownCommandAllocates | traces/checktrace.pl:110-115 | any other command counts as an allocation |
| CheckTrace.FreeLineFields | traces/checktrace.pl:152 | a printed free line reads back as a free of the same id |
| RepTrace.AcceptedIff | traces/checktrace.pl:70-116 | a trace the script accepts makes sense to the driver if and only if its numbers are in range and no alloc names an outstanding number in another spelling; then both agree on what is outstanding |
| RepTrace.OneSpelling | mdriver.c:520-542 | numbers without leading zeros have one spelling each |
| RepTrace.ValueConcat | mdriver.c:520-542 | the digits of a number count in tens |
| RepTrace.EverySpelled | mdriver.c:520-542 | every number has a spelling without leading zeros |
| RepTrace.CanonicalWellFormed | traces/checktrace.pl:70-116 | so an accepted trace whose ids have no leading zeros is well formed for the driver |
| RepTrace.SpelledTwice | traces/checktrace.pl:93-99 | any two allocs of one number in different spellings pass the script and not the driver |
| RepTrace.TwoSpellings | traces/checktrace.pl:93-99 | the two lines a 1 8 and a 01 8 are such a trace |
| RepTrace.BalancedFreesAll | traces/checktrace.pl:134-153 | to the driver the balanced output of a readable trace, the lines of the input with a command and the frees, leaves nothing outstanding |
| RepTrace.AcceptedPasses | mdriver.c:577-685 | an accepted trace with plainly spelled ids, passable requests and a demand the heap can meet is one for which eval_mm_valid returns 1 with mm.c |
| SizeClasses.ClassIsLog | giyoun/Segregated/segreted(84).c:367-370 | the shifting loop computes min(19, floor(log2 size)) |
| SizeClasses.ClassMonotone | giyoun/Segregated/segreted(84).c:367-370 | larger blocks are in the same or a later class |
| SizeClasses.ShiftBound | giyoun/Segregated/segreted(84).c:367-370 | for any size the heap can hold the shifted size is at most 1, or 40 in the last class |
| SizeClasses.AlwaysAtHead | giyoun/Segregated/segreted(84).c:374-377 | because size was shifted down, the search loop of insert_block never advances: every insertion is at the head |
| SizeClasses.AscendingIff | giyoun/Segregated/segreted(84).c:361-403 | after an insertion the list of the class is ascending if and only if it was and the new block is no larger than the old head |
| SizeClasses.UnshiftedKeepsOrder | giyoun/Segregated/segreted(84).c:372-378 | compared with the size itself the search would keep every list ascending |
| OrderWitness.OutOfOrder | giyoun/Segregated/segreted(84).c:361-403 | three calls after mm_init leave a list with a larger block before a smaller one |
| SizeClasses.TakeSorted | giyoun/Segregated/segreted(84).c:332-359 | remove_block recomputes the class the block was inserted under, and the other lists stay exact |
| SizeClasses.PutSorted | giyoun/Segregated/segreted(84).c:361-406 | insertion into the recomputed class keeps every list exact |
| SegLists.SegregatedLists.SelectList | giyoun/Segregated/segreted(84).c:367-370 | the loop yields the class and the shifted size |
| SegLists.SegregatedLists.Search | giyoun/Segregated/segreted(84).c:374-378 | the loop stops at the first block not smaller than the shifted size and remembers the one before |
| SegLists.SegregatedLists.Splice | giyoun/Segregated/segreted(84).c:380-403 | all four cases insert at exactly that position of exactly one list; tags, live payloads and the other lists stay |
| SegLists.SegregatedLists.InsertBlock | giyoun/Segregated/segreted(84).c:361-406 | the block becomes the head of the list of its class |
| SegLists.SegregatedLists.RemoveBlock | giyoun/Segregated/segreted(84).c:332-359 | all four cases take the block off the list of its class and leave the other lists alone |
| SegLists.SegregatedLists.Reset | giyoun/Segregated/segreted(84).c:104-106 | all 20 lists become empty |
| SegSpec.CoalesceSorted | giyoun/Segregated/segreted(84).c:225-264 | in all four merge cases each free block ends on exactly the list of its class |
| SegSpec.CoalesceInv | giyoun/Segregated/segreted(84).c:225-264 | the merge restores the invariant and changes no live block |
| SegSpec.ExtendInv | giyoun/Segregated/segreted(84).c:203-220 | the extended heap keeps the invariant and all live blocks and returns a free block of at least the bytes asked for |
| SegSpec.FreeOk | giyoun/Segregated/segreted(84).c:162-170 | mm_free ends the life of exactly its block |
| SegSpec.FindFitFrom | giyoun/Segregated/segreted(84).c:307-324 | a scan from class c on finds a block in the lowest such class that holds a fit |
| SegSpec.FindFitOk | giyoun/Segregated/segreted(84).c:301-327 | find_fit fails if and only if no free block fits; what it finds is in the lowest class that holds a fit |
| SegSpec.GoodFit | giyoun/Segregated/segreted(84).c:301-327 | if some fitting block is smaller than 2^19, what is found is less than twice as large as it |
| SegSpec.InitialOk | giyoun/Segregated/segreted(84).c:100-124 | after mm_init the invariant holds and nothing is live |
| SegPlace.FrontIsCut | giyoun/Segregated/segreted(84).c:269-296 | the coalesce after a split never merges: the rest becomes the head of its class |
| SegPlace.CutOk | giyoun/Segregated/(98)정리.c:291-306 | tail and head placement keep tiling, list agreement and no adjacent free blocks |
| SegPlace.WholeOk | giyoun/Segregated/(98)정리.c:285-289 | whole-block placement keeps them too |
| SegPlace.PlaceOk | giyoun/Segregated/(98)정리.c:276-309 | all three placements grant a block of asize to asize + 16 bytes (asize + 8 if the back is always split off) and touch no other live block |
| SegPlace.MallocOutcome | giyoun/Segregated/(98)정리.c:364-419 | mm_malloc fails if and only if the request is empty or nothing fits and the heap cannot grow, and then changes nothing; else the block is new, aligned and of bounded size (which block it is: SegLaw.MallocIff) |
| SegLaw.MallocIff | giyoun/Segregated/segreted(84).c:130-157 | mm_malloc has exactly one lawful outcome, and that is what is specified: it takes the first fit on the lowest list that holds one, or the end of a heap grown by asize or 4096, joined with a free block there; of that block the front, or in the allocators named 98 the tail from 100 bytes on and the front below, or all of it if the rest is too small; the rest heads the list of its class and all lists keep their order |
| SegLaw.MallocGoodFit | giyoun/Segregated/segreted(84).c:130-157 | if some fitting block is smaller than 2^19, the block mm_malloc returns is cut from a free block less than twice as large, the first fit on the lowest list that holds one |
| SegLaw.FreeIff | giyoun/Segregated/segreted(84).c:162-170 | mm_free has exactly one lawful outcome: the block is given up, no two free blocks are neighbours, the free block that covers it heads the list of its class, and all lists keep their order |
| SegLaw.ReplaceIff | giyoun/Segregated/segreted(84).c:175-198 | mm_realloc has exactly one lawful outcome: the block that mm_malloc returns, and if there is one the old block freed |
| SegLaw.InitialIff | giyoun/Segregated/segreted(84).c:100-124 | the state after mm_init is the only sound one with that break and nothing live |
| SegHeap.SegregatedHeap.Coalesce | giyoun/Segregated/segreted(84).c:225-264 | the words in memory hold the merged tiling and the 20 lists, every live byte being kept |
| SegHeap.SegregatedHeap.FindFit | giyoun/Segregated/segreted(84).c:301-327 | the two nested loops over the lists in memory compute the specified search |
| SegHeap.SegregatedHeap.Carve | giyoun/Segregated/(98)정리.c:293-305 | the four PUTs of a split write both parts' tags and leave lists and live bytes alone |
| SegHeap.SegregatedHeap.Grow | giyoun/Segregated/segreted(84).c:209-217 | sbrk and the three PUTs, or no change at all |
| SegHeap.SegregatedHeap.LayOut | giyoun/Segregated/segreted(84).c:104-116 | from an empty heap: empty lists, prologue and epilogue |
| SegHeap.FuseSorted | giyoun/Segregated/segreted(84).c:237-258 | retagging a run of unlisted blocks as one keeps the lists exact |
| Seg84.Allocator.Place | giyoun/Segregated/segreted(84).c:269-296 | memory after place holds the specified state |
| Seg84.Allocator.ExtendHeap | giyoun/Segregated/segreted(84).c:203-220 | memory after extend_heap holds the extended state; on failure nothing changes |
| Seg84.Allocator.Init | giyoun/Segregated/segreted(84).c:100-124 | from an empty heap mm_init returns 0 and leaves the initial state |
| Seg84.Allocator.Malloc | giyoun/Segregated/segreted(84).c:130-157 | refines the abstract allocator: one new entry of size to size + 15 bytes, or NULL and no change; block, break and lists are the lawful ones: the first fit of the lowest class that holds one, or the end of the grown heap |
| Seg84.Allocator.Free | giyoun/Segregated/segreted(84).c:162-170 | refines the abstract allocator: exactly the freed entry disappears; the lists are the lawful ones |
| Seg84.Allocator.Realloc | giyoun/Segregated/segreted(84).c:175-198 | reaches the one lawful state and refines the abstract allocator: the first min(size, old payload) bytes move, the rest of the heap stays; on failure nothing changes |
| SegRuns.ReachableInv | giyoun/Segregated/segreted(84).c:100-406 | every state reached by legal calls keeps the invariant |
| SegRuns.ReachableSegregated | giyoun/Segregated/segreted(84).c:100-406 | in every reachable state a block is on list c if and only if it is free and c is its class; its size is then at least 2^c and, below the last class, less than 2^(c+1) |
| Seg98.Allocator.Coalesce | giyoun/Segregated/(98)정리.c:239-274 | coalescing a block that is already listed comes to the same as listing the merged block, in all four cases |
| Seg98.Allocator.Place | giyoun/Segregated/(98)정리.c:276-309 | memory after the three-way placement holds the specified state, and the specified pointer is returned |
| Seg98.Allocator.ExtendHeap | giyoun/Segregated/(98)정리.c:143-160 | memory after extend_heap holds the extended state; on failure nothing changes |
| Seg98.Allocator.Init | giyoun/Segregated/(98)정리.c:328-351 | from an empty heap mm_init returns 0 and leaves 64 bytes of free heap |
| Seg98.Allocator.Malloc | giyoun/Segregated/(98)정리.c:364-419 | NULL and no change, or one new entry and all other contents kept; block, end of the block taken, break and lists are the lawful ones |
| Seg98.Allocator.Free | giyoun/Segregated/(98)정리.c:428-439 | exactly the freed entry disappears; the lists are the lawful ones |
| Seg98.Allocator.Stretch | giyoun/Segregated/(98)정리.c:468-484 | growing in place keeps the pointer and all contents, computes the remainder as the code does, and reaches the specified state |
| Seg98.Allocator.Realloc | giyoun/Segregated/(98)정리.c:449-493 | under its conditions mm_realloc keeps the first min(size, old payload) bytes, in place or elsewhere, and all other contents; a failure changes nothing |
| Seg98Spec.AbsorbInv | giyoun/Segregated/(98)정리.c:479-484 | swallowing the next free block keeps the invariant and every other live block, and adds exactly its bytes |
| Seg98Spec.RemainderExact | giyoun/Segregated/(98)정리.c:471 | the remainder computed in 32 bits is the true difference if and only if the request exceeds what is there by at most 2^31 |
| Seg98Spec.ExtendBehind | giyoun/Segregated/(98)정리.c:474-477 | if only a free block, or nothing, separates the block from the end, the extension is contiguous with it |
| Seg98Spec.InPlaceOk | giyoun/Segregated/(98)정리.c:470-484 | growing in place fails only for lack of memory and then changes nothing; else the block keeps its place, measures exactly newSize + remainder + extension and all else is kept |
| Seg98Spec.ClaimClearsIff | giyoun/Segregated/(98)정리.c:470-484 | behind a free block the extent claimed clears all later blocks if and only if what is there suffices or that free block ends the heap; for any tiling |
| Seg98Spec.ClaimTiledIff | giyoun/Segregated/(98)정리.c:479-483 | once the block behind is off its list, the tags written leave an exact tiling if and only if the size written is that of both blocks |
| Seg98Spec.SoundIff | giyoun/Segregated/(98)정리.c:468-484 | whenever the in-place branch is taken and sbrk can deliver: what it unlinks is a free block, the heap is tiled again and the block has room, if and only if GrowsInPlace holds and the request is less than 2^31 above the block |
| Seg98Spec.EpilogueUnlinked | giyoun/Segregated/(98)정리.c:468-479 | for a last block that need not grow the branch is taken, nothing is extended, and what is unlinked is the epilogue, at the break |
| InPlaceWitness.LastNeedNotGrow | giyoun/Segregated/(98)정리.c:449-484 | one call after mm_init that case is there: the branch is taken and not sound |
| InPlaceWitness.NextTooSmall | giyoun/Segregated/(98)정리.c:449-484 | four calls after mm_init a realloc to 100 bytes tags a block across the live one behind the free one |
| Seg98Spec.MoveOk | giyoun/Segregated/(98)정리.c:485-489 | the move branch replaces exactly one live block |
| Seg98Spec.ReallocOk | giyoun/Segregated/(98)정리.c:449-493 | whichever branch is taken, the result has room, the old block is live only if it was returned, and no other live block changed |
| Seg98Law.ReallocIff | giyoun/Segregated/(98)정리.c:449-493 | under its conditions mm_realloc has exactly one lawful outcome: in place, by all that lies behind and by the shortage or 4096 bytes more if that does not suffice, if the block behind is free or the epilogue; else a new block by the law of mm_malloc, the old one freed |
| Seg98Runs.ReachableInv | giyoun/Segregated/(98)정리.c:143-493 | every state reached by calls within those conditions is exactly tiled, has every free block on the list of its class and no two free neighbours |
| NextFitSpec.ScanFirst | giyoun/implicit/implicit.c:305-309 | a scan between two boundaries finds the first fitting block and nothing exactly if there is none |
| NextFitSpec.FindFitOk | giyoun/implicit/implicit.c:298-322 | the two scans together visit every block: NULL if and only if nothing fits, else the first fit in cyclic order from last_freep |
| NextFitSpec.CoalesceInv | giyoun/implicit/implicit.c:214-255 | a merge with a neighbour sends last_freep to the free block that covers the one freed, and without one it stays, on a block boundary in either case; tiling and live blocks are kept |
| NextFitSpec.PlaceInv | giyoun/implicit/implicit.c:343-369 | both branches of place keep the invariant and last_freep and grant asize bytes, or all if fewer than 16 would be left |
| NextFitSpec.ExtendInv | giyoun/implicit/implicit.c:174-196 | the extended heap keeps the invariant and all live blocks |
| NextFitSpec.FreeOk | giyoun/implicit/implicit.c:201-209 | mm_free ends the life of exactly its block; a merge takes last_freep along |
| NextFitSpec.MallocOutcome | giyoun/implicit/implicit.c:262-293 | mm_malloc fails if and only if the request is empty or nothing fits and the heap cannot grow; else the block is new and of size + 8 to size + 23 bytes |
| NextFitLaw.MallocIff | giyoun/implicit/implicit.c:262-293 | mm_malloc has exactly one lawful outcome: the first fit in cyclic order from last_freep, which stays, or the end of a heap grown by asize or 4096, to which last_freep goes if it is joined with a free block there; asize bytes of it, or all if fewer than 16 would be left |
| NextFitLaw.FreeIff | giyoun/implicit/implicit.c:201-255 | mm_free has exactly one lawful outcome: the block is given up, no two free blocks are neighbours, and last_freep goes to the free block that covers it if that merged, or else stays |
| NextFitLaw.ReallocIff | giyoun/implicit/implicit.c:374-398 | mm_realloc has exactly one lawful outcome: the block that mm_malloc returns, and if there is one the old block freed |
| NextFitLaw.InitialIff | giyoun/implicit/implicit.c:135-169 | the state after mm_init is the only sound one with that break, nothing live and last_freep at the prologue |
| NextFit.Allocator.Coalesce | giyoun/implicit/implicit.c:214-255 | memory after coalesce holds the merged tiling; last_freep goes to the free block that covers bp if a neighbour was free, and else stays |
| NextFit.Allocator.FindFit | giyoun/implicit/implicit.c:298-322 | the two loops terminate, compute the specified search and leave last_freep where it was |
| NextFit.Allocator.Place | giyoun/implicit/implicit.c:343-369 | memory after place holds the specified state, and last_freep is where it was |
| NextFit.Allocator.Init | giyoun/implicit/implicit.c:135-169 | from an empty heap mm_init returns 0 and leaves the initial state |
| NextFit.Allocator.Malloc | giyoun/implicit/implicit.c:262-293 | refines the abstract allocator; block, break and last_freep are the lawful ones |
| NextFit.Allocator.Free | giyoun/implicit/implicit.c:201-209 | refines the abstract allocator; last_freep is the lawful one |
| NextFit.Allocator.Realloc | giyoun/implicit/implicit.c:374-398 | refines the abstract allocator: data and all other payloads kept, on failure nothing changes; block and last_freep are the lawful ones |
| NextFitRuns.ReachableRover | giyoun/implicit/implicit.c:135-398 | in every reachable state last_freep is a block boundary, and a search fails if and only if every free block is too small |
| RootLists.ClassIsRange | giyoun/Segregated/prologue.c:329-343 | getclass puts sizes of more than 2^(c+1) and at most 2^(c+2) double words into class c, the last class being open |
| RootLists.ClassUp | giyoun/Segregated/prologue.c:329-338 | larger blocks are in the same or a later class |
| RootLists.WithinTwice | giyoun/Segregated/prologue.c:413-432 | below the last class a block of the same or a lower class is less than twice as large |
| PrologueSpec.GoodFit | giyoun/Segregated/prologue.c:413-432 | what find_fit chooses is less than twice as large as any fitting block below the last class |
| RootLists.NodeWrite | giyoun/Segregated/prologue.c:214-240 | writing a link word of a free block or the next pointer of a root disturbs no tag, no client and no other list: the footer a root's PREVP aliases is never written |
| RootLists.InsertThreaded | giyoun/Segregated/prologue.c:228-240 | the four writes put the block behind the root of its class |
| RootLists.DeleteThreaded | giyoun/Segregated/prologue.c:214-223 | the two writes take the node off its list even if its tags were already rewritten |
| RootLists.TagsKeepThreaded | giyoun/Segregated/prologue.c:391-407 | new tags on a block of at least 24 bytes miss its own link words and all others |
| Prologue.Allocator.GetClass | giyoun/Segregated/prologue.c:329-338 | the loop computes the class |
| Prologue.Allocator.InsertFreenode | giyoun/Segregated/prologue.c:228-240 | the block becomes the first of its class; every other list, tag and live byte stays |
| Prologue.Allocator.DeleteFreenode | giyoun/Segregated/prologue.c:214-223 | the block leaves its list; every other list, tag and live byte stays |
| Prologue.Allocator.Coalesce | giyoun/Segregated/prologue.c:437-482 | memory after coalesce holds the specified tiling and lists, in all four cases |
| Prologue.Allocator.Place | giyoun/Segregated/prologue.c:380-408 | writing the new tags before unlinking is harmless: memory after place holds the specified state, one block of asize to asize + 16 bytes is live and nothing else live changes |
| Prologue.Allocator.FindFit | giyoun/Segregated/prologue.c:413-432 | walking the chains in memory, roots included, computes the specified search |
| Prologue.Allocator.ExtendHeap | giyoun/Segregated/prologue.c:356-374 | memory after extend_heap holds the extended state; on failure nothing changes |
| Prologue.Allocator.Init | giyoun/Segregated/prologue.c:140-161 | from an empty heap mm_init builds the ten roots and leaves the initial state |
| Prologue.Allocator.Malloc | giyoun/Segregated/prologue.c:166-195 | block, break and lists are the lawful ones; clients see NULL and no change, or one new entry and all other contents kept |
| Prologue.Allocator.Free | giyoun/Segregated/prologue.c:200-209 | the lists are the lawful ones and exactly the freed entry disappears; freeing NULL changes nothing |
| PrologueSpec.CoalesceInv | giyoun/Segregated/prologue.c:437-482 | the merge restores the invariant, with each free block on exactly the list of its class, and changes no live block |
| PrologueSpec.PlaceOk | giyoun/Segregated/prologue.c:380-408 | both branches restore the invariant and make exactly one block live, of asize to asize + 16 bytes |
| PrologueSpec.FindFitOk | giyoun/Segregated/prologue.c:413-432 | find_fit fails if and only if no free block fits; what it finds is in the lowest class that holds a fit |
| PrologueSpec.ExtendInv | giyoun/Segregated/prologue.c:356-374 | the extended heap keeps the invariant and all live blocks and returns a free block of at least the bytes asked for |
| PrologueSpec.MallocOutcome | giyoun/Segregated/prologue.c:166-195 | mm_malloc fails if and only if the request is empty or nothing fits and the heap cannot grow, and then changes nothing; else the block is new and of bounded size |
| PrologueLaw.MallocIff | giyoun/Segregated/prologue.c:166-195 | mm_malloc has exactly one lawful outcome: the first fit on the lowest of the ten lists that holds one, or the end of a heap grown by the block size or 4096; all of it if fewer than 24 bytes are left, else the front, the rest then heading the list of its class; all lists keep their order |
| PrologueLaw.MallocGoodFit | giyoun/Segregated/prologue.c:166-195 | if some fitting block has at most 1024 double words, the block mm_malloc returns was cut from one less than twice as large, the first fit on the lowest list that holds one |
| PrologueLaw.FreeIff | giyoun/Segregated/prologue.c:200-209 | mm_free has exactly one lawful outcome: the block is given up, no two free blocks are neighbours, the free block that covers it heads the list of its class, and all lists keep their order |
| PrologueLaw.InitialIff | giyoun/Segregated/prologue.c:140-161 | the state after mm_init is the only sound one with that break and nothing live |
| PrologueSpec.FreeOk | giyoun/Segregated/prologue.c:200-209 | mm_free ends the life of exactly its block |
| PrologueRuns.ReachableRoots | giyoun/Segregated/prologue.c:140-482 | in every state reached from mm_init the ten roots stand, list i holds exactly the free blocks of class i, no two free blocks are neighbours and each byte belongs to exactly one block |
| TagBits.PutKeeping | giyoun/Segregated/참고(98).c:64 | PUT keeps the bit that stood at the address |
| TagBits.PutPair | giyoun/Segregated/참고(98).c:64-65 | header and footer writes never carry a footer bit into a header: a header keeps its own bit or loses it |
| TagBits.TagWrite | giyoun/Segregated/참고(98).c:64-72 | rewriting one tag word leaves all other tags and live bytes alone |
| TaggedRuns.ReachableTags | giyoun/Segregated/참고(98).c:160-533 | in every state reached from mm_init whatever carries a tag, block or epilogue, stands behind a live block, and each free block is on exactly the list of its class |
| TaggedSpec.TagInitialOk | giyoun/Segregated/참고(98).c:351-374 | after mm_init the invariant holds, nothing is live and nothing is tagged |
| TaggedSpec.NothingTaggedInside | giyoun/Segregated/참고(98).c:257-298 | no tag stands on what a merge swallows, nor right behind it |
| TaggedSpec.JoinOk | giyoun/Segregated/참고(98).c:257-298 | coalesce keeps the invariant, all live blocks and all reserved blocks, and swallows no tagged predecessor |
| TaggedSpec.TagExtendOk | giyoun/Segregated/참고(98).c:160-178 | extend_heap returns an untagged block, keeps all live and reserved blocks and creates no tag |
| TaggedSpec.FindTakableOk | giyoun/Segregated/참고(98).c:407-421 | the search fails if and only if every large enough free block is tagged |
| TaggedSpec.TagPlaceOk | giyoun/Segregated/참고(98).c:300-336 | place keeps every tag where it stands |
| TaggedSpec.TagMallocOutcome | giyoun/Segregated/참고(98).c:387-437 | mm_malloc never hands out or changes a reserved block and creates no tag; when it fails it changes nothing |
| TaggedSpec.TagFreeOk | giyoun/Segregated/참고(98).c:446-465 | mm_free releases at most the block reserved for the one freed; every other reserved block is neither swallowed nor changed |
| TaggedSpec.ExtensionJoinsIff | giyoun/Segregated/참고(98).c:505-512 | an extension joins the free block that ends the heap if and only if that block is untagged |
| TaggedSpec.TagSoundIff | giyoun/Segregated/참고(98).c:503-518 | whenever the in-place branch is taken and sbrk can deliver: what it unlinks is a free block, the heap is tiled again and the block has room, if and only if TagGrowsInPlace holds and the request is less than 2^31 above the block |
| TagWitness.ReservedLast | giyoun/Segregated/참고(98).c:477-533 | four calls after mm_init a realloc extends the heap behind a reserved last block, which does not merge, and the branch is not sound |
| TaggedSpec.TagInPlaceOk | giyoun/Segregated/참고(98).c:503-518 | in-place growth under its conditions is exact and touches only the block reserved for the one that grows |
| TaggedSpec.TagReallocOk | giyoun/Segregated/참고(98).c:477-533 | the only tag that can be new is the one behind the result: it is set if the result has less than twice the buffer to spare, and otherwise no tag is new; no other reserved block is touched |
| TaggedLaw.ReallocTags | giyoun/Segregated/참고(98).c:477-533 | after a successful mm_realloc the header behind the result is tagged if and only if the result has less than 256 bytes to spare, or it was tagged before and the block stayed as it was; the other tags are exactly those that its branch keeps; a block with 256 bytes to spare is returned with nothing changed |
| TaggedLaw.MallocIff | giyoun/Segregated/참고(98).c:387-437 | mm_malloc has exactly one lawful outcome: the first untagged fit on the lowest list that holds one, every tag staying, or the end of a heap grown by asize or 4096, joined with an untagged free block there, the tag of the epilogue going; the tail of that block from 100 bytes on, else the front, or all of it; all lists keep their order |
| TaggedLaw.FreeIff | giyoun/Segregated/참고(98).c:446-465 | mm_free has exactly one lawful outcome: from the untagged free block before to the free block behind all becomes one free block, which heads its list, and the header behind the freed block alone loses its tag |
| TaggedLaw.ReallocIff | giyoun/Segregated/참고(98).c:477-533 | under its conditions mm_realloc has exactly one lawful outcome: the block itself if it has 128 bytes to spare, in place, or moved by the laws of mm_malloc and mm_free, and then the tag |
| TaggedLaw.InitialIs | giyoun/Segregated/참고(98).c:351-374 | mm_init leaves one free block of 64 bytes and no tag |
| TaggedAlloc.Allocator.Coalesce | giyoun/Segregated/참고(98).c:257-298 | memory after coalesce holds the specified state |
| TaggedAlloc.Allocator.SetTag | giyoun/Segregated/참고(98).c:71 | sets exactly one header bit |
| TaggedAlloc.Allocator.RemoveTag | giyoun/Segregated/참고(98).c:72 | clears exactly one header bit |
| TaggedAlloc.Allocator.FindFit | giyoun/Segregated/참고(98).c:407-421 | the loops over the lists in memory compute the specified search |
| TaggedAlloc.Allocator.Place | giyoun/Segregated/참고(98).c:300-336 | memory after the three-way placement holds the specified state |
| TaggedAlloc.Allocator.Init | giyoun/Segregated/참고(98).c:351-374 | from an empty heap: 64 free bytes and no tag |
| TaggedAlloc.Allocator.Malloc | giyoun/Segregated/참고(98).c:387-437 | NULL and no change, or one new entry and all other contents kept; block, break, lists and tags are the lawful ones |
| TaggedAlloc.Allocator.Free | giyoun/Segregated/참고(98).c:446-465 | exactly the freed entry disappears; lists and tags are the lawful ones |
| TaggedAlloc.Allocator.Realloc | giyoun/Segregated/참고(98).c:477-533 | under its conditions the first min(size, old payload) bytes and all other contents are kept; block, lists and tags are the lawful ones, a tag being set behind the result if and only if it has less than 256 bytes to spare or was tagged and stayed |
| TaggedRuns.ReservedUntilReleased | giyoun/Segregated/참고(98).c:160-533 | over every run of legal calls a reserved block stays free, tagged and unchanged until the block it is reserved for is freed or resized |

## Left out

- Pointers that wrap: `mem_brk + incr` and all addresses are unbounded numbers, so an address space that ends inside the heap is not modelled; the base address is taken as a multiple of 8 and as 0, and `mem_sbrk` returning NULL is not a case (prologue.c compares with NULL, which never holds).
- The starting state of `mm_init`: the break is at the start of the heap, as `mem_reset_brk` leaves it in the driver.
- Requests within 15 bytes of 2^32 (and 143 for the allocator with reallocation tags): the allocators' contracts exclude them, `Requests.AsizeCovers` says what happens.
- Pointers that are not live: `mm_free` and `mm_realloc` are specified for live pointers, as the C library demands.
- Seg98.Allocator.Realloc: only under `Seg98Spec.Supported`; in the move branch the bytes copied must lie in the heap buffer, `memcpy` of overlapping ranges (possible only for a request larger than the old block) is taken as a snapshot, and the inner `mm_malloc` must succeed, since the code does not check. Where the in-place branch is not sound (`Seg98Spec.SoundIff`) what later calls do is not modelled.
- Seg98.Allocator.Stretch: only under `Seg98Spec.GrowsInPlace`, outside of which the branch is shown not to be sound.
- Seg98Spec.InPlaceOk: only under `Seg98Spec.GrowsInPlace`, for the same reason.
- Seg98Spec.MoveOk: only if the inner `mm_malloc` succeeds.
- Seg98Spec.ReallocOk: only under `Seg98Spec.Supported`.
- Seg98Law.ReallocIff: only under `Seg98Spec.Supported`.
- Seg98Runs.ReachableInv: runs in which every realloc is one of those.
- Memory.MemLib.CopySnapshot: `memcpy` promises nothing for overlapping ranges; a snapshot is assumed.
- TaggedAlloc.Allocator.Realloc: only under `TaggedSpec.TagSupported`, for the same reasons.
- TaggedSpec.TagInPlaceOk: only under `TaggedSpec.TagGrowsInPlace`, outside of which the branch is shown not to be sound.
- TaggedSpec.TagReallocOk: only under `TaggedSpec.TagSupported`.
- TaggedLaw.ReallocIff: only under `TaggedSpec.TagSupported`.
- TaggedLaw.ReallocTags: only under `TaggedSpec.TagSupported`.
- TaggedRuns.ReservedUntilReleased: runs in which every realloc is one of those; so too `TaggedRuns.ReachableTags`.
- RepTrace.AcceptedIff: lines have the fields the driver reads and no others; `%u` is taken as the value of the digits, without wrap-around, and the header and the counts that read_trace checks are left out.
- NextFit.Allocator.FindFit: the value last_freep gets after a failed search is shown to be the one it had.
- CheckTrace.Checker.Emit: the order in which Perl sorts the ids is a parameter; the header lines are kept as the source keeps them and the request count is a number.
- realloc and calloc of prologue.c: realloc there reads a word that is not the block's size.
- The order of the writes where it cannot be observed: in the lists of the two allocators named 98 the four link words are written in another order than in the model, and in some merges the footer is written before the header.
- `coalesce` of the two allocators named 98 is split into a helper for the cases that merge; what it reads twice in the source it may read once here and the other way round.
- The heap checker and the printing functions of prologue.c, error messages, and `errno`, which is a flag here.
- `read_trace`, command lines, statistics, the evaluation of libc and of speed in mdriver.c: input, output and timing.
- Clearing the cache and the counters of fcyc.c: a measurement is a parameter, and samples are real numbers, so rounding and NaN are not modelled.
- clock.c, ftimer.c, fsecs.c: platform code.
- giyoun/explicit/explicit.c and giyoun/Segregated/(98)분석.c repeat code that is modelled; giyoun/implicit/bestfit.c is a first fit because of an assignment in a condition, and originmm_c.c only bumps the break.
- The signedness of plain char is taken as signed, as on the machine the Makefile targets.
