# ElCache in Dafny

A model of ElCache, a chunked, content-addressed, multi-level blob cache, with proofs of what its parts promise. Six
parts are modelled, each as the source has it: objects are classes whose methods change fields, buffers are arrays,
loops are loops. Next to each object stands its value-level specification (`...Spec`), against which every method is
proved, and the theorems about that specification (`...Theorems`, `...Runs`, `...Histories` and the like), most of them
about every run or every reachable state.

| part | files |
|---|---|
| ARC replacement cache | `ArcSpec`, `ArcTheorems`, `ArcRuns`, `ArcDirectory`, `ArcRecency`, `ArcGhosts`, `ArcRemoval`, `ArcLists`, `ArcCache` |
| chunk arithmetic, reads and partial values | `Bytes`, `Chunking`, `Assembly`, `AssemblyGaps`, `Reads`, `Runs`, `PartialValue`, `PartialCounts` |
| memory, disk, coordinator | `MemorySpec`, `MemoryKeeps`, `MemoryCache`, `DiskSpec`, `DiskTheorems`, `DiskKeeps`, `DiskFiles`, `DiskCache`, `CoordinatorSpec`, `CoordinatorTheorems`, `CoordinatorReads`, `CoordinatorKeeps`, `LayerAnswers`, `CoordinatorExpiry`, `Coordinator` |
| hash ring and gossip | `HashPoint`, `RingSpec`, `RingTheorems`, `RingOrder`, `RingStability`, `RingWalks`, `HashRing`, `GossipSpec`, `GossipTheorems`, `Cluster` |
| wire codec and framing | `Messages`, `Wire`, `CodecSpec`, `CodecMessages`, `Framing`, `WireLayout`, `CodecBounds`, `Codec` |
| sparse writes, client library, socket server | `SparseSpec`, `SparseCache`, `SdkSpec`, `SdkTheorems`, `SdkLeftovers`, `Histories`, `SdkHistories`, `SdkBounds`, `UnixServer`, `SdkClient` |

`dafny verify dfyconfig.toml` checks the project.

## Assumptions

- The chunk size is any positive number; the chunk hash is any function that does not collide on the chunks of the run
  at hand. Key hashes are arbitrary numbers.
- A locked operation is one step. Clock readings, request ids and times are parameters; read sizes of a socket are
  chosen arbitrarily.
- Writing and deleting files succeeds, as does allocation; values are shorter than 2^64 bytes, and no descriptor lists
  chunks beyond that.
- A client that waits for bytes in vain times out.
- `p_` is a real number; it is truncated where the source truncates it.

## Where the code differs from what one would expect

The model follows the code. Each of these has a lemma that says exactly when the expected property holds, and one with
an input for which it does not.

- The disk cache orders its access set by time alone, so two chunks with one clock reading leave the second out of the
  set while the counter grows (`DiskTheorems.PutChunkAccountsIff`, `DiskTheorems.PutChunkIndexesIff`;
  `DiskTheorems.SameReadingLosesTrack`).
- The four ARC lists together have no bound (`ArcDirectory.PutKeepsDirectoryIff`, `ArcDirectory.RunKeepsDirectoryIff`;
  `ArcRuns.GhostsGrowWithoutBound`), and a put on a resident key may leave the cache over its capacity
  (`ArcTheorems.PutFitsIff`; `ArcTheorems.ResidentPutOverflows`).
- A range whose 64-bit end wraps reports nothing missing, and the value is said to have it
  (`PartialValues.WrappingHidesMissing`, `PartialValues.WrappingIsHad`; `PartialValues.WrappedRangeOverGap`). Of a
  descriptor with more or fewer entries than chunks, the present ranges and bytes may be misreported
  (`PartialCounts.RangesExactIff`, `PartialCounts.BytesExactIff`; `PartialCounts.LongListingStrays`,
  `PartialCounts.ShortListingOvercounts`).
- A zero-length range read inside a known value is a miss (`CoordinatorReads.ReadsItsWrites`;
  `CoordinatorReads.EmptyRangeMisses`). With partial results allowed memory answers for a key it knows even where the
  disk has all of it (`CoordinatorReads.DefaultReadHitsIff`; `CoordinatorReads.PartialAfterPut`).
- A partial hit from disk may carry bytes from beyond the range, since the loop does not step over missing chunks
  (`AssemblyGaps.DiskGaps`, `Assembly.ReadIsPrefix`; `AssemblyGaps.DiskReturnsBeyond`), and one from memory may lack
  bytes that were found, since it steps over a whole chunk even from the middle of one (`AssemblyGaps.MemoryGaps`,
  `AssemblyGaps.MemoryReturnsAllFound`).
- The ring walk does not end when colliding points leave fewer owners than are wanted (`RingWalks.WalkEndsIff`), and
  removing a node takes points along that were other nodes' before (`RingTheorems.RemoveUndoesAddIff`);
  `HashRings.TwoNodesStarve` shows both.
- The receiver's check of the magic number comes after the parser has already thrown for a wrong one, outside the
  handler (`CodecBounds.ReceiveThrowsIff`; `CodecBounds.ZeroHeaderThrows`). Flags are read without a bounds check
  (`CodecBounds.DecodeUncheckedIff`; `CodecBounds.ShortDeleteResponse`). Lengths are cut to 32 bits
  (`Framing.FrameRoundTripIff`, where every larger message is such an input).
- The bounds check of a sparse write adds in 64 bits (`SparseSpec.CheckIsExactIff`; `SparseSpec.LastOffsetPasses`), the
  length checks of the socket server in 32 (`SdkBounds.OverreadIff`; `SdkBounds.LongKeyOverreads`). The client checks
  its send buffer for put and range writes only (`SdkBounds.OverrunIff`; `SdkBounds.LongDeleteOverruns`).
- The counter of the disk cache is not the bytes on disk: a chunk stored twice counts twice
  (`DiskFiles.RunCounterIsFilesIff`; `DiskFiles.StoredTwiceCountsTwice`).
- The client receives a header, and for anything but a get a payload, whatever the size of its receive buffer
  (`SdkBounds.ReadUncheckedIff`; `SdkLeftovers.TinyBufferOverruns`, `SdkLeftovers.PutAfterOversizedGet`). With nothing
  left on the connection a buffer of 28 bytes is enough (`SdkBounds.CleanCallSafeIff`).
- A get whose answer is too large for the receive buffer does not report the size needed, though the header file says it
  does, and leaves the answer on the connection (`SdkLeftovers.TooSmallTells`, where every larger answer is such an
  input). The next call takes it for its response: a get fails for its magic number (`SdkLeftovers.StaleGet`), any other
  call takes bytes of the value for a length and a code (`SdkLeftovers.StaleCall`, `SdkLeftovers.StaleFields`;
  `SdkLeftovers.PutAfterOversizedGet`). So the get that allocates never returns such a value
  (`SdkLeftovers.GetAllocIff`).

## Model

| member | source | states |
|---|---|---|
| `ArcRuns.RunKeepsInv` | include/elcache/arc_cache.hpp:238-377 | In every state reachable by put, get, remove and clear, each key occurs at most once over T1, T2, B1 and B2 together, the byte counter equals the sizes in T1 and T2, and the target stays between 0 and the capacity |
| `ArcSpec.InvMeans` | include/elcache/arc_cache.hpp:386-395 | Occurring at most once overall means that each of the four lists has no duplicates and every two of them are disjoint |
| `ArcRuns.RunHoldsLastPuts` | include/elcache/arc_cache.hpp:238-361 | Over any run, a resident entry holds the value last put under its key and that value's size |
| `ArcRuns.RunStaysWithinCapacity` | include/elcache/arc_cache.hpp:261-361 | If keys determine sizes between 1 and the capacity, every reachable state has its bytes within the capacity and T1 and B1 together at most one above it |
| `ArcRuns.GhostsGrowWithoutBound` | include/elcache/arc_cache.hpp:319-337 | The paper's bound of twice the capacity on all four lists fails: with capacity 1 a family of runs makes B2 as long as one likes |
| `ArcDirectory.PutKeepsDirectoryIff` | include/elcache/arc_cache.hpp:261-337 | A put keeps the four lists together within twice the capacity if and only if the key is known to one of them, they are not full, or the ghost list that the insertion trims has a ghost to drop |
| `ArcDirectory.RunKeepsDirectoryIff` | include/elcache/arc_cache.hpp:238-377 | The four lists stay within twice the capacity all through a run if and only if every put in it meets that condition when it is made |
| `ArcDirectory.PutDirectory` | include/elcache/arc_cache.hpp:261-337 | A put of a known key keeps the number of keys over the four lists; a new key adds one to what is left after trimming |
| `ArcDirectory.StepAddsNoKey` | include/elcache/arc_cache.hpp:238-377 | Lookups, removals and clearing never add a key to the four lists |
| `ArcRuns.RemovedIsGone` | include/elcache/arc_cache.hpp:363-377 | After a remove only entries of other keys are left, all of them old |
| `ArcRemoval.RemoveConserves` | include/elcache/arc_cache.hpp:363-377 | Conservation for remove: the residents afterwards are those before without the key's, as multisets |
| `ArcRemoval.RemoveTakesOnly` | include/elcache/arc_cache.hpp:363-377 | Remove takes the key out of all four lists and leaves every other entry and ghost in its order, and the target |
| `ArcGhosts.RunGhostsInOrder` | include/elcache/arc_cache.hpp:345-361 | In every reachable state B1 and B2 hold evicted keys in order of last eviction, most recent first |
| `ArcGhosts.PutForgetsOldest` | include/elcache/arc_cache.hpp:319-337 | In every run a key that a new key makes the cache forget was evicted before every key left in its ghost list; it is one of B1 when T1 and B1 fill the capacity, and one of B2 only when they do not and all four lists are full |
| `ArcGhosts.PutForgetsIff` | include/elcache/arc_cache.hpp:319-337 | A new key makes the cache forget one if and only if the ghost list to trim, B1 when T1 and B1 fill the capacity and else B2 when the four lists are full, has a key |
| `ArcGhosts.TrimDrops` | include/elcache/arc_cache.hpp:319-331 | Trimming drops at most one key, the last of that list |
| `ArcGhosts.NewKeyKnows` | include/elcache/arc_cache.hpp:319-337 | A put of a new key makes the cache know that key and what trimming left, and nothing else |
| `ArcRuns.RemoveLeaves` | include/elcache/arc_cache.hpp:363-377 | Removing brings no entry in |
| `ArcRuns.PutLeaves` | include/elcache/arc_cache.hpp:261-337 | After a put every resident is the new entry or an old one of another key |
| `ArcTheorems.EmptyInv` | include/elcache/arc_cache.hpp:20-30 | A new cache satisfies the invariant |
| `ArcTheorems.GetKeeps` | include/elcache/arc_cache.hpp:238-259 | A get keeps the invariant and the residents; it answers exactly when the key is resident, with that key's value |
| `ArcTheorems.ResidentIsFound` | include/elcache/arc_cache.hpp:238-259 | A resident entry is the one its list finds under its key |
| `ArcTheorems.PutKeepsInv` | include/elcache/arc_cache.hpp:261-337 | Every case of put keeps the invariant |
| `ArcTheorems.RemoveKeepsInv` | include/elcache/arc_cache.hpp:363-377 | Remove keeps the invariant, reports whether the key was resident, and leaves the key in none of the four lists |
| `ArcTheorems.PutConserves` | include/elcache/arc_cache.hpp:261-361 | Conservation: the new residents and the returned evicted pairs together are the old residents with the key rebound to the new value, as multisets |
| `ArcTheorems.PutPlaces` | include/elcache/arc_cache.hpp:261-337 | The new entry is at the front of T2 if the key was known to any list, of T1 otherwise, and a get right after finds it |
| `ArcTheorems.PutAdapts` | include/elcache/arc_cache.hpp:287-317 | The target moves by at most one, up exactly on a B1 hit and down exactly on a B2 hit with room to move and the other ghost list nonempty |
| `ArcTheorems.PutAdaptsBy` | include/elcache/arc_cache.hpp:287-317 | It moves by the ratio of the ghost lists' lengths, at most one, cut to between 0 and the capacity |
| `ArcTheorems.GetPromotes` | include/elcache/arc_cache.hpp:238-259 | A lookup that answers moves the key to the front of T2 and out of T1, and changes no ghost list, target or counter |
| `ArcRecency.RunMostRecentFirst` | include/elcache/arc_cache.hpp:238-361 | In every reachable state T1 and T2 are in order of last touch, most recent first |
| `ArcRecency.VictimIsLeastRecent` | include/elcache/arc_cache.hpp:345-361 | In every reachable state what eviction takes from a list was touched before everything it leaves there |
| `ArcRecency.RunSeenOnceOrAgain` | include/elcache/arc_cache.hpp:238-337 | T1 holds what was seen once and T2 what was seen again: a key in T1 was last touched by a put that found it in none of the four lists, a key in T2 by a touch that found it in one |
| `ArcRecency.StepMovesNoOther` | include/elcache/arc_cache.hpp:238-377 | No operation moves a key it is not about from one resident list to the other |
| `ArcTheorems.PutFitsIff` | include/elcache/arc_cache.hpp:261-337 | After a put the bytes are within the capacity exactly when the new entry fits beside what a hit leaves in place, or alone when it is newly inserted |
| `ArcTheorems.ResidentPutOverflows` | include/elcache/arc_cache.hpp:264-285 | An input for which they are not: a larger value put on a resident key, with nothing evicted |
| `ArcTheorems.EvictedBecomeGhosts` | include/elcache/arc_cache.hpp:345-361 | An evicted key is no longer resident and is in a ghost list |
| `ArcTheorems.EvictForEffect` | include/elcache/arc_cache.hpp:339-361 | Making room moves keys between lists without losing any, splits the residents into those left and those evicted, and keeps the byte counter exact |
| `ArcTheorems.EvictForLeavesRoom` | include/elcache/arc_cache.hpp:339-343 | Making room ends with room for the new entry or nothing left to evict, and changes neither target nor capacity |
| `ArcTheorems.EvictionMinimal` | include/elcache/arc_cache.hpp:339-343 | Nothing is evicted after the new entry fits: before each eviction it did not |
| `ArcTheorems.EvictionOrder` | include/elcache/arc_cache.hpp:345-361 | What is evicted are the least recent entries of each list, and their keys go to the matching ghost list, most recent first |
| `ArcTheorems.EvictionPolicy` | include/elcache/arc_cache.hpp:345-361 | T2 is touched only once T1 is within its target or empty; T1 is cut, while T2 has entries, only above its target |
| `ArcLists.LruList.FindNode` | include/elcache/arc_cache.hpp:136-140 | The index answers with the list node that holds the key, or with none when no entry has it |
| `ArcLists.LruList.Contains` | include/elcache/arc_cache.hpp:126-128 | Membership by index is membership in the list |
| `ArcLists.LruList.PushFront` | include/elcache/arc_cache.hpp:142-145 | A fresh key goes to the front and the index points at its node |
| `ArcLists.LruList.MoveToFront` | include/elcache/arc_cache.hpp:147-149 | A node moves to the front; the others keep their order and the index stays right |
| `ArcLists.LruList.PopBack` | include/elcache/arc_cache.hpp:151-156 | The last entry leaves the list and the index |
| `ArcLists.LruList.EraseNode` | include/elcache/arc_cache.hpp:158-169 | An entry leaves the list and the index; the rest is unchanged |
| `ArcLists.LruList.TotalSize` | include/elcache/arc_cache.hpp:182-188 | The loop adds up the sizes of the entries |
| `ArcLists.LruList.Clear` | include/elcache/arc_cache.hpp:174-177 | List and index become empty |
| `ArcLists.GhostList.Contains` | include/elcache/arc_cache.hpp:201-203 | Membership by index is membership in the list |
| `ArcLists.GhostList.PushFront` | include/elcache/arc_cache.hpp:205-208 | A fresh key goes to the front and into the index |
| `ArcLists.GhostList.PopBack` | include/elcache/arc_cache.hpp:210-215 | The last key leaves list and index |
| `ArcLists.GhostList.Erase` | include/elcache/arc_cache.hpp:217-223 | A key leaves list and index, if it was there |
| `ArcLists.GhostList.Clear` | include/elcache/arc_cache.hpp:228-231 | List and index become empty |
| `ArcCaches.ArcCache.Get` | include/elcache/arc_cache.hpp:33-38 | The object's get is the get of the specification, with all four indexes kept right |
| `ArcCaches.ArcCache.Put` | include/elcache/arc_cache.hpp:40-44 | The object's put, with its five cases and eviction loop, is the put of the specification, returns its evicted pairs and keeps the invariant |
| `ArcCaches.ArcCache.Remove` | include/elcache/arc_cache.hpp:46-50 | The object's remove is the remove of the specification |
| `ArcCaches.ArcCache.Contains` | include/elcache/arc_cache.hpp:52-55 | The object's membership test is residence in T1 or T2 |
| `ArcCaches.ArcCache.Clear` | include/elcache/arc_cache.hpp:89-97 | Clearing gives the empty cache |
| `ArcCaches.ArcCache.EvictForSize` | include/elcache/arc_cache.hpp:339-343 | The eviction loop terminates and does what the specification's recursion says, returning the evicted entries in order |
| `ArcCaches.ArcCache.EvictOne` | include/elcache/arc_cache.hpp:345-361 | One eviction takes the entry the policy names and records its key as a ghost |
| `Chunking.SplitValue` | src/cache/memory_cache.cpp:343-355 | The loop cuts a value into chunks of the chunk size, the last one shorter |
| `Chunking.SplitConcat` | src/cache/memory_cache.cpp:343-355 | Put end to end the chunks are the value, and each is nonempty and at most a chunk size long |
| `Chunking.SplitCount` | src/cache/memory_cache.cpp:343-355 | There are as many chunks as the size needs |
| `Chunking.SplitAt` | src/cache/memory_cache.cpp:343-355 | Chunk k holds exactly the bytes from k chunk sizes on, up to a chunk size |
| `Chunking.FindChunks` | src/core/chunk.cpp:55-71 | The loop lists the chunk indices of the specification |
| `Chunking.ChunksForRangeExact` | src/core/chunk.cpp:55-71 | A chunk is listed for a range exactly when it holds a byte of the range inside the value |
| `Chunking.ChunksRun` | src/core/chunk.cpp:55-71 | For a nonempty range starting inside the value the indices are one unbroken run, all of existing chunks |
| `Chunking.ComputePieces` | src/core/types.cpp:96-116 | The loop terminates and computes the tiling of the specification |
| `Chunking.TilesTile` | src/core/types.cpp:96-116 | The pieces are nonempty, stay inside their chunks, have consecutive indices, follow each other byte for byte, and together are the range |
| `Chunking.TilesNameTheChunks` | src/core/types.cpp:96-116 | Inside a complete value the pieces name exactly the chunks the range selects, in order |
| `Assembly.AssembleChunks` | src/cache/memory_cache.cpp:357-396 | The assembly loop computes the specification's bytes, in the memory layer's form and, with its flag off, in the disk layer's |
| `Assembly.ReadIsExact` | src/cache/memory_cache.cpp:357-396 | With every needed chunk present, exactly the requested slice comes out, in the memory loop and in the disk loop |
| `Assembly.ReadIsSubsequence` | src/cache/memory_cache.cpp:368-377 | With chunks missing, the memory loop returns a subsequence, in order, of the requested slice |
| `Assembly.ReadIsPrefix` | src/cache/disk_cache.cpp:260-275 | When no present chunk follows a missing one, both loops return a prefix of the requested slice |
| `AssemblyGaps.MemoryGaps` | src/cache/memory_cache.cpp:357-396 | With chunks missing, the memory loop returns exactly the bytes of the found chunks that lie in the range, except that a range that starts inside a missing chunk loses as many bytes at the start of the first chunk found |
| `AssemblyGaps.MemoryReturnsAllFound` | src/cache/memory_cache.cpp:368-377 | So it returns all found bytes of the range when the first chunk is found or the range starts with a chunk |
| `AssemblyGaps.DiskGaps` | src/cache/disk_cache.cpp:260-275 | With chunks missing, the disk loop returns the found chunks end to end, from where the range starts in the first one if that is found, up to the number of bytes asked for |
| `AssemblyGaps.DiskReturnsBeyond` | src/cache/disk_cache.cpp:260-275 | An input for which those are not bytes of the range |
| `Reads.PlanRead` | src/cache/memory_cache.cpp:32-56 | The range that is read starts where the request does, or at 0 without one, lies inside the value and is as long as asked for or as is left |
| `Reads.AskedIsPart` | src/cache/memory_cache.cpp:38-55 | Byte i of what a request asks for is byte offset + i of the value, and there are as many as asked for or as are left |
| `Reads.ClampIsAsked` | src/cache/memory_cache.cpp:38-55 | The range cut to the value is what was asked for, from the same offset |
| `Reads.AnsweredHonest` | src/cache/memory_cache.cpp:32-52 | An answer given without looking at chunks, expired or past the end, is honest too: a hit there is an empty slice |
| `Reads.ConcludeHonest` | src/cache/memory_cache.cpp:82-99 | From a value's own chunks a read never claims a hit with other bytes than those asked for, or another range than theirs, with partial results allowed or not |
| `Reads.ConcludeHits` | src/cache/memory_cache.cpp:82-95 | With all chunks found, a nonempty read is a hit with exactly the slice and its range |
| `DiskTheorems.RunAccounts` | src/cache/disk_cache.cpp:292-362 | With strictly increasing clock readings, in every run from empty the byte counter equals the sizes recorded in the access order, which is ordered, and every indexed chunk has an entry there, duplicates included |
| `DiskTheorems.PutChunkAccountsIff` | src/cache/disk_cache.cpp:458-475 | Storing a chunk keeps the counter exact if and only if its clock reading is new to the access order (or it has no bytes): the order compares times alone and drops an equal one |
| `DiskTheorems.PutChunkIndexesIff` | src/cache/disk_cache.cpp:458-475 | Storing a chunk keeps every indexed chunk in the access order if and only if the clock reading is new or the chunk is already there |
| `DiskTheorems.SameReadingLosesTrack` | src/cache/disk_cache.cpp:458-475 | An input for which both fail: two chunks at one clock reading are both counted and indexed, and one of them has no access entry |
| `DiskTheorems.PutChunkKeeps` | src/cache/disk_cache.cpp:458-475 | Whatever the clock reads, the access order stays ordered, the counter never falls below the recorded sizes, and files and index agree |
| `DiskTheorems.RemoveChunkKeeps` | src/cache/disk_cache.cpp:477-496 | Removing a chunk keeps order, accounting and indexing, and its file is gone |
| `DiskKeeps.RemoveChunkTakes` | src/cache/disk_cache.cpp:477-496 | Removing a chunk takes its file, its index entry and its oldest access entry and nothing else: every other file keeps its bytes, every other entry its place, and the descriptors stay |
| `DiskKeeps.RemoveChunksTakes` | src/cache/disk_cache.cpp:347-362 | Removing several chunks leaves the files and entries of all others |
| `DiskKeeps.RemoveTakes` | src/cache/disk_cache.cpp:347-362 | Removing a key takes its descriptor and exactly the files it names; a key that is not there changes nothing |
| `DiskKeeps.MakeRoomTakes` | src/cache/disk_cache.cpp:303-305 | Making room takes nothing at or below the high watermark; above it, the fewest oldest entries that bring the counter to the low watermark and free the bytes needed, or all, with exactly their files |
| `DiskKeeps.PutTakes` | src/cache/disk_cache.cpp:292-345 | A put at or below the high watermark keeps every file and entry; above it exactly the oldest entries that are needed go. The files afterwards are the value's chunks and the ones kept, with their bytes |
| `DiskKeeps.StoreAdds` | src/cache/disk_cache.cpp:320-334 | Storing chunks adds their files and leaves every other file, entry and descriptor |
| `DiskTheorems.EvictKeeps` | src/cache/disk_cache.cpp:581-611 | Eviction keeps order, accounting and indexing |
| `DiskTheorems.EvictOnlyTakes` | src/cache/disk_cache.cpp:581-611 | Eviction only takes: files, index and access entries shrink, file contents and descriptors stay |
| `DiskTheorems.EvictTakesOldest` | src/cache/disk_cache.cpp:581-611 | Eviction removes the oldest entries, no more than needed, and ends with both goals met or nothing left |
| `DiskTheorems.PutStaysBelowWatermarks` | src/cache/disk_cache.cpp:303-305 | After a put the counter is at most the maximal size times the high watermark, or at most the value's bytes above the maximal size times the low one |
| `DiskTheorems.TargetIsLow` | src/cache/disk_cache.cpp:581-590 | Eviction aims at the most whole bytes that do not pass the low watermark |
| `DiskTheorems.MakeRoomMakesRoom` | src/cache/disk_cache.cpp:303-305 | Making room leaves the high watermark unpassed with the bytes needed on top, or the counter at the low one |
| `DiskFiles.RunStaysBelowWatermarks` | src/cache/disk_cache.cpp:292-362 | In every state of every run with increasing clock readings the counter is below the high watermark, or at most the largest value of the run above the low one |
| `DiskFiles.RunFilesBelowWatermarks` | src/cache/disk_cache.cpp:292-362 | When the chunks do not collide either, the same holds of the bytes of the files on disk |
| `DiskFiles.RunCounterIsFilesIff` | src/cache/disk_cache.cpp:292-362 | In every such run the counter is at least the bytes of the files, and equal to them if and only if every size it counts belongs to a file that is there and to the oldest entry of its chunk |
| `DiskFiles.CounterIsFilesIff` | src/cache/disk_cache.cpp:458-496 | The same of any state with exact books whose recorded sizes are those of the files |
| `DiskFiles.StoredTwiceCountsTwice` | src/cache/disk_cache.cpp:458-475 | An input for which they differ: one chunk stored twice is one file and counted twice |
| `DiskCaches.DiskCache.PutChunk` | src/cache/disk_cache.cpp:458-475 | Stores the file, indexes it, counts it and enters it into the access order, as specified |
| `DiskCaches.DiskCache.RemoveChunk` | src/cache/disk_cache.cpp:477-496 | The loop finds the oldest access entry of the chunk; counter, index and file follow the specification |
| `DiskCaches.DiskCache.Evict` | src/cache/disk_cache.cpp:581-611 | The eviction loop terminates and is the specification's |
| `DiskCaches.DiskCache.Put` | src/cache/disk_cache.cpp:292-345 | Makes room, stores the chunks one clock reading each and files the descriptor, with the key-size error |
| `DiskCaches.DiskCache.Remove` | src/cache/disk_cache.cpp:347-362 | Removes the key's chunks and its descriptor |
| `DiskCaches.DiskCache.Get` | src/cache/disk_cache.cpp:200-290 | Reads the descriptor's range from the files as specified, with its misses, expiry and partial results |
| `DiskCaches.DiskCache.GetChunk` | src/cache/disk_cache.cpp:441-456 | A chunk is found exactly when its file is there and not empty |
| `MemoryCaches.MemoryCache.Put` | src/cache/memory_cache.cpp:109-156 | Splits, stores the chunks in the ARC cache, files the descriptor; the key-size error changes nothing |
| `MemoryCaches.MemoryCache.Remove` | src/cache/memory_cache.cpp:158-177 | Removes the key's chunks, even shared ones, and its descriptor |
| `MemoryCaches.MemoryCache.Get` | src/cache/memory_cache.cpp:15-107 | Fetches the needed chunks (touching the ARC lists), and answers as specified |
| `MemoryCaches.MemoryCache.FetchChunks` | src/cache/memory_cache.cpp:61-80 | The loop fetches chunk by chunk and tells whether all were found |
| `CoordinatorTheorems.RunRefinesMap` | src/cache/cache_coordinator.cpp:50-174 | Refinement: in every run of put, remove and get over memory and disk, with eviction and shared chunks, a get of an unmapped key misses and any hit returns exactly the bytes asked for of the value last put, and the range they come from |
| `CoordinatorTheorems.RunHitBytes` | src/cache/cache_coordinator.cpp:50-174 | Byte by byte: in every run byte i of a hit is byte offset + i of the value last put, and there are as many as asked for or as are left |
| `CoordinatorKeeps.RunStillReads` | src/cache/cache_coordinator.cpp:50-174 | With a disk layer, in every run a value stays readable after its put: as long as no other key that shares a chunk with it is removed, it is not itself put or removed, and every put fits at or below the high watermark, a get that insists on complete data is a hit with the bytes asked for until the value expires, unless the range is a zero-length one inside the value |
| `CoordinatorKeeps.StepSparesDisk` | src/cache/disk_cache.cpp:292-362 | Every such step leaves the descriptor and all files of the value |
| `CoordinatorKeeps.StaysStored` | src/cache/disk_cache.cpp:292-362 | So does every sequence of them |
| `CoordinatorKeeps.StoredIsRead` | src/cache/cache_coordinator.cpp:50-99 | A value whose files are all there is read in full in every run, whatever memory holds |
| `CoordinatorKeeps.DiskHitsIff` | src/cache/disk_cache.cpp:200-290 | The disk answers a read of a known key with a hit if and only if its copy has not expired, the range is not a zero-length one inside the value, and the file of every chunk the range needs is there |
| `CoordinatorKeeps.DiskFetchesAllIff` | src/cache/disk_cache.cpp:232-252 | Fetching finds all chunks if and only if all their files are there and not empty |
| `MemoryKeeps.RunStillReadsFromMemory` | src/cache/cache_coordinator.cpp:50-174 | With memory asked first, in every run a value that its put left in memory stays readable there: as long as removed keys share no chunk with it, it is not itself put or removed, and puts fit into free memory, every get is a hit with the bytes asked for until it expires, unless the range is a zero-length one inside the value |
| `MemoryKeeps.StepSparesMemory` | src/cache/memory_cache.cpp:15-177 | Every such step leaves the descriptor and all chunks of the value |
| `MemoryKeeps.FittingPutStays` | src/cache/memory_cache.cpp:109-156 | A put that fits into free memory leaves the whole value there |
| `MemoryKeeps.MemoryOnlyHitsIff` | src/cache/cache_coordinator.cpp:50-99 | Without a disk a get is a hit if and only if memory is there and asked first, its copy has not expired, the range is not a zero-length one inside the value, and every chunk the range needs is resident |
| `MemoryKeeps.MemoryGetTouches` | src/cache/memory_cache.cpp:15-107 | A get keeps every chunk, descriptor and byte count, and leaves the chunks it needs and finds in T2; one that insists on complete data does so when all are there |
| `MemoryKeeps.FetchTouches` | src/cache/memory_cache.cpp:61-80 | Fetching leaves in T2 what it finds |
| `MemoryKeeps.MemoryRemoveTakes` | src/cache/memory_cache.cpp:158-177 | Removing a key takes its descriptor and exactly the chunks it names |
| `LayerAnswers.MemoryAnswers` | src/cache/memory_cache.cpp:15-107 | Which of its four answers memory gives: miss for an unknown key, expired for an expired copy, else by the range, the residents and whether partial results are allowed |
| `LayerAnswers.DiskAnswers` | src/cache/disk_cache.cpp:200-290 | Which of its four answers the disk gives, by the files that are there |
| `LayerAnswers.MemoryPartialIs` | src/cache/memory_cache.cpp:82-99 | A partial hit from memory carries exactly the bytes of the range that lie in resident chunks; only when the range starts inside a missing chunk, the first resident one loses as many bytes at its start |
| `LayerAnswers.DiskPartialIs` | src/cache/disk_cache.cpp:260-290 | A partial hit from disk carries the chunks that are there end to end, from where the range starts in the first one if that is there, up to the number of bytes asked for |
| `CoordinatorTheorems.RunCoherent` | src/cache/cache_coordinator.cpp:50-174 | In every run both layers' descriptors describe the mapped values, and every stored chunk is the content its name stands for |
| `CoordinatorTheorems.GetCoherent` | src/cache/cache_coordinator.cpp:50-99 | A get keeps the layers coherent and never answers a hit with wrong bytes |
| `CoordinatorTheorems.PutAccepted` | src/cache/cache_coordinator.cpp:101-150 | A put succeeds exactly for keys and values within the limits when some layer is there to take it, and otherwise changes nothing. The error is that the key is too large exactly for one over 8192 bytes, that the value is exactly for one over 20 TiB with memory there, and internal exactly when there is no layer |
| `CoordinatorReads.ReadsItsWrites` | src/cache/cache_coordinator.cpp:50-150 | With a disk layer and partial results refused, a get right after an accepted put that has not expired is a hit with the slice asked for if and only if it asks for everything, for at least one byte, or past the end; otherwise it is a miss |
| `CoordinatorReads.DiskReadsItsWrites` | src/cache/disk_cache.cpp:200-345 | The disk layer alone hits right after its own put if and only if the value has not expired and the range is not a zero-length one inside the value, which is a miss |
| `CoordinatorReads.EmptyRangeMisses` | src/cache/memory_cache.cpp:54-62 | An input for which it misses: a range of length zero at the front of a value just put |
| `CoordinatorReads.MemoryHitsIff` | src/cache/memory_cache.cpp:15-107 | Memory answers a read of a known key with a hit if and only if its copy has not expired, the range is not a zero-length one inside the value, and every chunk the range needs is resident when the read starts |
| `CoordinatorReads.FetchesAllIff` | src/cache/memory_cache.cpp:61-80 | Fetching finds all chunks if and only if all were resident before it: its promotions evict nothing |
| `CoordinatorReads.DefaultReadHitsIff` | src/cache/cache_coordinator.cpp:50-150 | With partial results allowed, as by default, a get right after an accepted put is a hit if and only if the range is not a zero-length one inside the value and memory, where it answers, holds every chunk the range needs; else it is partial, or a miss for such a range |
| `CoordinatorReads.FittingValueHits` | src/cache/cache_coordinator.cpp:50-150 | A value that fits into the free part of memory is read back in full, whatever part of it is asked for |
| `CoordinatorReads.PartialAfterPut` | src/cache/cache_coordinator.cpp:50-150 | An input for which the default get right after a put is partial: a value of two chunks and a memory of one |
| `CoordinatorReads.CompleteAfterPut` | src/cache/cache_coordinator.cpp:50-150 | The same get with partial results refused returns all of it from the disk |
| `CoordinatorTheorems.MemoryPartialIsSubsequence` | src/cache/memory_cache.cpp:82-99 | A partial hit from memory is a subsequence of the slice asked for |
| `CoordinatorReads.MemoryShadowsDisk` | src/cache/cache_coordinator.cpp:55-66 | With partial results allowed, a key known to memory is answered by memory, hit or partial, and the disk is not consulted |
| `CoordinatorExpiry.ExpiredIsNotServed` | src/cache/memory_cache.cpp:31-36 | In every run a value past the time to live of the put that last wrote it is not served by either layer |
| `CoordinatorExpiry.RunDated` | src/cache/memory_cache.cpp:131-137 | In every run a key's descriptors carry the expiry of the put that last wrote it, each layer by its own clock |
| `CoordinatorExpiry.RemoveTakesChunks` | src/cache/cache_coordinator.cpp:152-174 | Removing a key forgets it and takes every chunk it names out of both layers, even one that another key shares |
| `Coordinators.Coordinator.Put` | src/cache/cache_coordinator.cpp:101-150 | The object's put over its two layers is the specification's |
| `Coordinators.Coordinator.Remove` | src/cache/cache_coordinator.cpp:152-174 | The object's remove is the specification's |
| `Coordinators.Coordinator.Get` | src/cache/cache_coordinator.cpp:50-99 | The object's get, memory first, then disk, is the specification's |
| `Coordinators.WriteStream.Write` | src/cache/cache_coordinator.cpp:324-337 | The loop that cuts full chunks off the buffer loses and reorders nothing: the bytes written so far grow by the piece |
| `Coordinators.WriteStream.Finish` | src/cache/cache_coordinator.cpp:339-354 | Finishing puts exactly the concatenation of everything written |
| `Coordinators.ReadStream.Read` | src/cache/cache_coordinator.cpp:389-398 | Successive reads return the value in order, each as much as asked for until the end |
| `PartialValues.PartialValue.MissingRanges` | src/core/chunk.cpp:112-144 | The chunk-by-chunk loop with its merging step computes the byte-by-byte reference |
| `PartialValues.PartialValue.AvailableRanges` | src/core/chunk.cpp:146-167 | For a descriptor with any number of entries the nested loops compute the maximal runs of present bytes, and after them a range of wrapped length for every run of entries that starts past the value's chunks |
| `PartialCounts.RangesExactIff` | src/core/chunk.cpp:146-167 | Only the runs of present bytes are reported if and only if every available entry past the value's chunks follows an available one |
| `PartialCounts.LongListingStrays` | src/core/chunk.cpp:146-167 | An input with three entries for one chunk that is reported as a range of 2^64 - 1 bytes |
| `PartialValues.PartialValue.AvailableBytes` | src/core/chunk.cpp:180-193 | For a descriptor with any number of entries the loop counts whole chunks, and the rest of the value for the last entry, in 64 bits |
| `PartialCounts.BytesExactIff` | src/core/chunk.cpp:180-193 | That is the number of present bytes if and only if, with fewer entries than chunks, the last one is not available, and otherwise the entries past the chunks are alike, and like the last chunk's if that is short |
| `PartialCounts.ShortListingOvercounts` | src/core/chunk.cpp:180-193 | An input with one entry for two chunks for which too many bytes are reported |
| `PartialValues.PartialValue.HasRange` | src/core/chunk.cpp:96-110 | The loop answers whether every chunk the range touches is present |
| `PartialValues.PartialValue.HasChunk` | src/core/chunk.cpp:80-83 | A chunk is present exactly when every byte position of it is; one past the end never is |
| `PartialValues.PartialValue.MarkAvailable` | src/core/chunk.cpp:85-89 | Marks the chunk and records its id; an index past the end changes nothing |
| `PartialValues.PartialValue.MarkUnavailable` | src/core/chunk.cpp:91-94 | Clears one mark and nothing else |
| `PartialValues.MissingIsExact` | src/core/chunk.cpp:112-144 | For a range that does not wrap, the missing ranges are nonempty, ordered, never adjacent, and cover exactly those bytes of the range inside the value whose chunk is absent |
| `PartialValues.MissingEmptyIffHas` | src/core/chunk.cpp:96-144 | Nothing is missing of a nonempty range that starts inside the value exactly when the value has the range |
| `PartialValues.AvailableAndMissingPartition` | src/core/chunk.cpp:112-167 | Every byte of a value lies in exactly one available or missing range, and no other byte in any |
| `PartialValues.LengthsAddUp` | src/core/chunk.cpp:112-193 | The available lengths add up to the available bytes, and with the missing ones to the size |
| `PartialValues.WrappingHidesMissing` | src/core/chunk.cpp:112-144 | For a range whose 64-bit end wraps nothing is ever reported missing, which is right exactly when every byte from its start on is present |
| `PartialValues.WrappingIsHad` | src/core/chunk.cpp:96-110 | The value is said to have such a range unless the wrapped end falls into the chunk of its start and that is absent |
| `PartialValues.WrappingIsHadRightlyIff` | src/core/chunk.cpp:96-110 | That answer is right if and only if every byte from the range's start on is present, or the answer is no |
| `PartialValues.WrappedRangeOverGap` | src/core/chunk.cpp:96-144 | An input for which both are wrong: a wrapping range over an absent chunk has nothing missing and is had |
| `Runs.RunsAreMaximal` | src/core/chunk.cpp:112-167 | The byte-by-byte reference really lists the maximal runs of the chosen positions |
| `HashPoint.MixUndone` | src/network/cluster.cpp:137-147 | The 64-bit mix of multiplications and xor-shifts has an inverse |
| `HashPoint.FoldTwice` | src/network/cluster.cpp:141-145 | The xor-shift by 33 undoes itself on 64-bit words |
| `HashPoint.TimesUndone` | src/network/cluster.cpp:139-144 | Wrap-around multiplication by an odd constant is undone by its inverse |
| `HashPoint.ReplicasApart` | src/network/cluster.cpp:137-147 | The point is injective in the replica number of a node |
| `HashPoint.PointsCollideIff` | src/network/cluster.cpp:137-147 | Points of two nodes collide exactly when the xor of the ids is the xor of the scaled replica numbers |
| `HashPoint.FirstTwoShared` | src/network/cluster.cpp:137-147 | Points do collide: every node shares its first two points, swapped, with one other node |
| `HashRings.CollisionlessIff` | src/network/cluster.cpp:137-162 | A set of nodes has no collisions exactly when that holds of no two ids and replica numbers below the count; every node has points exactly when there are virtual nodes |
| `HashRings.ApartPlaces` | src/network/cluster.cpp:137-162 | Two nodes share no point exactly when that holds of no two replica numbers |
| `HashRings.HashRing.AddNode` | src/network/cluster.cpp:149-162 | The loop over the replicas adds the node's points; a known node changes nothing. Every owned point stays one of its owner's places, and the owner a node of the ring, collisions or not |
| `HashRings.HashRing.RemoveNode` | src/network/cluster.cpp:164-177 | The loop erases the node's points, whoever owns them; an unknown node changes nothing, and the same invariant is kept |
| `HashRings.HashRing.GetNodes` | src/network/cluster.cpp:179-216 | The walk with its seen set, wrap-around and early exit returns the specified prefix of the preference list, when there are enough owners |
| `HashRings.HashRing.Walk` | src/network/cluster.cpp:194-212 | The walk ends within one lap and collects the first distinct owners clockwise |
| `HashRings.HashRing.IsResponsible` | src/network/cluster.cpp:254-257 | A node is responsible exactly when it heads the key's preference list, that is, when it owns the first point at or after the hash, or the lowest point if there is none |
| `RingOrder.PreferenceStarts` | src/network/cluster.cpp:193-201 | A preference list starts with the owner of the first point at or after the hash, or of the lowest point if there is none |
| `RingOrder.PreferenceOrder` | src/network/cluster.cpp:197-212 | A node comes before another in it exactly when its first point clockwise from the hash does |
| `RingOrder.PreferenceNames` | src/network/cluster.cpp:197-212 | It names exactly the nodes that own a point |
| `RingOrder.GetNodesInOrder` | src/network/cluster.cpp:179-216 | The nodes returned for a hash are in clockwise order of their first points from it, and the first owns the next point |
| `RingOrder.GetNodesNearest` | src/network/cluster.cpp:179-216 | A node that is not returned has its first point further on than every one that is |
| `RingOrder.NextExists` | src/network/cluster.cpp:193-201 | A ring with points has a next point from every hash |
| `RingTheorems.RemoveUndoesAddIff` | src/network/cluster.cpp:149-177 | Removing a node undoes adding it if and only if none of its points was taken |
| `RingTheorems.AddPointsEffect` | src/network/cluster.cpp:158-160 | Adding keeps the points ordered and listed, gives the node all its points and leaves the rest with their owners |
| `RingTheorems.RemovePointsEffect` | src/network/cluster.cpp:173-175 | Removing keeps the points ordered and listed, takes exactly the named points and leaves the rest with their owners |
| `RingTheorems.RingUnique` | src/network/cluster.cpp:149-177 | A ring is determined by its owners and its nodes |
| `RingStability.RunOwned` | src/network/cluster.cpp:149-177 | Without collisions, after any history of joins and leaves each node in owns exactly its points |
| `RingStability.RingDependsOnNodes` | src/network/cluster.cpp:149-177 | Without collisions, two histories that leave the same nodes in leave the same ring |
| `RingStability.OwnedUnique` | src/network/cluster.cpp:149-177 | Two rings over the same nodes in which every node owns its points are equal |
| `RingStability.AddKeepsOwned` | src/network/cluster.cpp:149-162 | Adding a node without collisions keeps every node's ownership |
| `RingStability.RemoveKeepsOwned` | src/network/cluster.cpp:164-177 | Removing a node without collisions keeps every other node's ownership |
| `RingStability.RemoveStable` | src/network/cluster.cpp:164-216 | Removing a node deletes it from every key's preference list and leaves the rest in order |
| `RingStability.AddStable` | src/network/cluster.cpp:149-216 | Adding a node only inserts it into preference lists, so a key's owner stays or becomes the new node |
| `RingWalks.GetNodesExact` | src/network/cluster.cpp:179-216 | Without collisions the walk ends and returns min(max(count, 1), nodes) distinct nodes of the ring in preference order, and a smaller count a prefix |
| `RingWalks.PreferenceIsAll` | src/network/cluster.cpp:197-212 | Without collisions a preference list names every node exactly once |
| `RingWalks.WalkEndsIff` | src/network/cluster.cpp:197-212 | The walk ends at some turn if and only if the ring has as many distinct owners as are wanted, from whatever hash it starts; otherwise its guard holds at every turn |
| `RingWalks.PreferenceCounts` | src/network/cluster.cpp:197-212 | From every hash a preference list has as many nodes as the ring has distinct owners |
| `RingWalks.TakeoverStarves` | src/network/cluster.cpp:149-212 | A node that joins on top of every owned point is then the only owner: a request for two nodes goes on at every turn from every hash, and when it leaves the ring has nodes and no points |
| `HashRings.TwoNodesStarve` | src/network/cluster.cpp:137-212 | It happens: with two virtual nodes every node has a twin with the same two points, and after both have joined a request for two never returns |
| `RingWalks.RunPlaced` | src/network/cluster.cpp:149-177 | After every history of joins and leaves, with or without collisions, the points are ordered and owned, each by a node that is in and has it among its places |
| `RingWalks.RunNodesKnown` | src/network/cluster.cpp:149-216 | After every such history a walk that ends returns only nodes that are in |
| `RingWalks.GetNodesKnown` | src/network/cluster.cpp:197-212 | From that invariant, even with collisions only nodes of the ring are returned |
| `GossipTheorems.RunHoldsBest` | src/network/cluster.cpp:867-973 | In every run with lost, repeated and reordered pushes each member holds exactly the ids it heard of, each with a highest-generation info it heard |
| `GossipTheorems.RunGrows` | src/network/cluster.cpp:117-123 | Over any run no member loses an id and no generation it holds decreases |
| `GossipTheorems.OrderDoesNotMatter` | src/network/cluster.cpp:950-958 | If id and generation determine the info, members of any two runs that heard the same infos hold the same |
| `GossipTheorems.HeardDetermines` | src/network/cluster.cpp:117-123 | What is best among a set of versioned infos is unique |
| `GossipTheorems.HeardWasIntroduced` | src/network/cluster.cpp:950-1010 | Nothing is made up: whatever a member heard or sent was some node's own info or came in a handshake |
| `GossipTheorems.DeliveryDominates` | src/network/cluster.cpp:950-958 | Whoever takes a push knows at least as much as its sender did, and no less than before |
| `GossipTheorems.ExchangeAgrees` | src/network/cluster.cpp:950-1010 | Two members that exchanged pushes hold the same infos |
| `GossipTheorems.MergeAllKeepsBest` | src/network/cluster.cpp:950-958 | Merging a list of infos gives the best among all heard before and in the list |
| `GossipTheorems.RunRouted` | src/network/cluster.cpp:867-883 | In every run the ring of each member is over exactly the ids it knows |
| `GossipTheorems.RoutesAgree` | src/network/cluster.cpp:375-395 | Members that know the same ids have the same ring, choose the same nodes for every key and hold an info of each of them |
| `GossipTheorems.RunRoutesAgree` | src/network/cluster.cpp:375-395 | So in every run any two members that know the same ids route every key alike |
| `Clusters.ClusterNode.Update` | src/network/cluster.cpp:117-123 | Only a strictly greater generation replaces what is known |
| `Clusters.Cluster.StartsValid` | src/network/cluster.cpp:260-282 | A new cluster is a member that knows itself, on a ring of itself |
| `Clusters.Cluster.HandleNodeUpdate` | src/network/cluster.cpp:867-883 | Updates a known node in place or admits a new one to members and ring together, as specified |
| `Clusters.Cluster.HandlePush` | src/network/cluster.cpp:950-958 | The loop merges every info of a push |
| `Clusters.Cluster.PreparePush` | src/network/cluster.cpp:986-992 | A push holds every info known, and nothing else |
| `Clusters.Cluster.NodesForKey` | src/network/cluster.cpp:375-395 | The nodes for a key are those the ring names, in order; none is dropped for want of an info |
| `Clusters.Cluster.GetNode` | src/network/cluster.cpp:337-347 | A node is found exactly when its id is known |
| `Wire.NumberOfLittleEndian` | src/protocol/codec.cpp:39-55 | A number that fits its width reads back from its bytes |
| `Wire.LittleEndianOfNumber` | src/protocol/codec.cpp:78-103 | Bytes are those of the number they denote, which fits their width |
| `Wire.StringTaken` | src/protocol/codec.cpp:29-66 | A string under 2^32 bytes is read back, and what follows it is left |
| `Wire.TakeInt` | src/protocol/codec.cpp:78-103 | Reading a number consumes its width or throws, never reading past the end |
| `Wire.TakeString` | src/protocol/codec.cpp:58-76 | Reading a string consumes its prefix and its bytes or throws |
| `Wire.TakeFlag` | src/protocol/codec.cpp:308-315 | A flag is one byte, true when not zero, read without a bounds check: out of bounds exactly at the end, and never an exception |
| `CodecSpec.InfoTaken` | src/protocol/codec.cpp:128-153 | A node info with an address under 2^32 bytes is read back field by field |
| `CodecSpec.TakeInfo` | src/protocol/codec.cpp:141-153 | Reading a node info consumes exactly its size |
| `CodecSpec.TtlTaken` | src/protocol/codec.cpp:212-215 | A lifetime, negative ones included, survives its unsigned 64-bit form |
| `CodecSpec.MetadataTaken` | src/protocol/codec.cpp:198-203 | Metadata comes back without its times, which are not on the wire |
| `CodecSpec.RangeTaken` | src/protocol/codec.cpp:185-193 | An optional range comes back |
| `CodecMessages.HelloTaken` | src/protocol/codec.cpp:162-170 | A Hello payload under 2^32 bytes decodes to the message that was encoded, up to fields not on the wire, whatever follows it |
| `CodecMessages.HelloAckTaken` | src/protocol/codec.cpp:171-176 | A HelloAck payload under 2^32 bytes decodes to the message that was encoded, up to fields not on the wire, whatever follows it |
| `CodecMessages.GossipPushTaken` | src/protocol/codec.cpp:177-184 | A GossipPush payload under 2^32 bytes decodes to the message that was encoded, up to fields not on the wire, whatever follows it |
| `CodecMessages.GetTaken` | src/protocol/codec.cpp:185-194 | A Get payload under 2^32 bytes decodes to the message that was encoded, up to fields not on the wire, whatever follows it |
| `CodecMessages.GetResponseTaken` | src/protocol/codec.cpp:195-207 | A GetResponse payload under 2^32 bytes decodes to the message that was encoded, up to fields not on the wire, whatever follows it |
| `CodecMessages.PutTaken` | src/protocol/codec.cpp:208-217 | A Put payload under 2^32 bytes decodes to the message that was encoded, up to fields not on the wire, whatever follows it |
| `CodecMessages.PutResponseTaken` | src/protocol/codec.cpp:218-222 | A PutResponse payload under 2^32 bytes decodes to the message that was encoded, up to fields not on the wire, whatever follows it |
| `CodecMessages.DeleteTaken` | src/protocol/codec.cpp:223-226 | A Delete payload under 2^32 bytes decodes to the message that was encoded, up to fields not on the wire, whatever follows it |
| `CodecMessages.DeleteResponseTaken` | src/protocol/codec.cpp:227-231 | A DeleteResponse payload under 2^32 bytes decodes to the message that was encoded, up to fields not on the wire, whatever follows it |
| `CodecMessages.ErrorTaken` | src/protocol/codec.cpp:269-274 | An Error payload under 2^32 bytes decodes to the message that was encoded, up to fields not on the wire, whatever follows it |
| `CodecMessages.PayloadTaken` | src/protocol/codec.cpp:155-413 | So does every one of the ten messages |
| `CodecMessages.PayloadAppended` | src/protocol/codec.cpp:155-286 | What the encoder appends field by field is what the decoder is shown to read |
| `CodecMessages.PayloadSized` | src/protocol/codec.cpp:288-413 | Decoding gives a message of the kind in the header and consumes exactly that message's size |
| `CodecBounds.DecodeUncheckedIff` | src/protocol/codec.cpp:288-413 | Decoding reads past its input if and only if the header is good and the payload ends exactly where a flag is due: after 4 bytes of a get or delete response, an info of a handshake answer, a key and at most one byte of a get, key and data of a put |
| `CodecBounds.ShortDeleteResponse` | src/protocol/codec.cpp:391-396 | An input for which it does: a delete response of 4 bytes |
| `CodecBounds.InfoThere` | src/protocol/codec.cpp:141-153 | A node info is there exactly when its 58 fixed bytes and the announced bytes of its address are |
| `CodecBounds.StringThere` | src/protocol/codec.cpp:58-76 | A string is there exactly when its prefix and the announced bytes are |
| `CodecMessages.PayloadWritten` | src/protocol/codec.cpp:155-286 | A payload has its message's size |
| `WireLayout.PayloadLaidOut` | src/protocol/codec.cpp:155-280 | The payload of every message is its fields in order, at their widths, where byte i of a number is its digit i in base 256: a table of the wire format, independent of the encoder |
| `WireLayout.EncodeLaidOut` | src/protocol/codec.cpp:8-27 | An encoded message is the 24 bytes of magic number, version, kind, payload length modulo 2^32, request id and time, and then its fields |
| `WireLayout.LittleEndianIsDigits` | src/protocol/codec.cpp:39-55 | Byte i of an encoded number is its digit i in base 256 |
| `WireLayout.InfoLaid` | src/protocol/codec.cpp:128-138 | A node info is its nine fields in order |
| `Codecs.Buffer.PutU64` | src/protocol/codec.cpp:51-55 | The loop appends the eight bytes, lowest first |
| `Codecs.Buffer.PutU32` | src/protocol/codec.cpp:44-49 | Appends the four bytes, lowest first |
| `Codecs.Buffer.PutU16` | src/protocol/codec.cpp:39-42 | Appends the two bytes, lowest first |
| `Codecs.Buffer.PutText` | src/protocol/codec.cpp:29-37 | Appends the length cut to 32 bits, then the bytes |
| `Codecs.Buffer.PutNodeInfo` | src/protocol/codec.cpp:128-138 | Appends the nine fields in order |
| `Codecs.Buffer.PutMessage` | src/protocol/codec.cpp:155-280 | Appends each message's fields in order, with loops over repeated ones |
| `Codecs.Buffer.PutMessageHeader` | src/protocol/codec.cpp:8-27 | Appends the 24 header bytes |
| `Codecs.EncodeMessage` | src/protocol/codec.cpp:155-286 | Encodes into a payload buffer and puts the header in front |
| `Codecs.View.TakeNumber` | src/protocol/codec.cpp:78-103 | The loop adds up the bytes with their weights and advances the view, or throws |
| `Codecs.View.TakeText` | src/protocol/codec.cpp:58-76 | Takes a prefixed string and advances the view, or throws |
| `Codecs.View.TakeNodeInfo` | src/protocol/codec.cpp:141-153 | Takes the nine fields in order |
| `Codecs.View.TakeInfoList` | src/protocol/codec.cpp:318-326 | The counted loop takes one info after the other, or fails as the first that cannot be taken |
| `Codecs.View.ReadMessage` | src/protocol/codec.cpp:288-413 | Reads the message of a kind, or throws for an unknown one |
| `Codecs.View.ReadHeader` | src/protocol/codec.cpp:105-125 | Reads a header; too few bytes or the wrong magic number throws |
| `Codecs.DecodeMessage` | src/protocol/codec.cpp:288-413 | Decodes header and payload as specified, exceptions and unchecked reads included |
| `Framing.ParseHeader` | src/protocol/codec.cpp:105-125 | A parsed header had 24 bytes and the magic number; parsing never reads past the end |
| `Framing.HeaderTaken` | src/protocol/codec.cpp:8-125 | A header is read back field by field |
| `Framing.DecodeEncode` | src/protocol/codec.cpp:155-413 | Decoding an encoded message, whatever follows it, gives it back with its header and request id |
| `Framing.FrameRoundTripIff` | src/network/cluster.cpp:40-94 | A message comes out of the receive loop as it went in, leaving what follows untouched, if and only if its payload is under 2^32 bytes |
| `CodecBounds.ReceiveThrowsIff` | src/network/cluster.cpp:58-63 | The receiver throws, outside its handler, if and only if 24 bytes have come and the magic number in them is wrong |
| `CodecBounds.ZeroHeaderThrows` | src/network/cluster.cpp:58-63 | An input for which it does: 24 zero bytes |
| `CodecBounds.ReceiveUncheckedIff` | src/network/cluster.cpp:65-93 | It reads past a message if and only if the header is good, all announced bytes have come, and they end exactly where a flag is due |
| `Framing.LargeFrameLost` | src/protocol/codec.cpp:281-286 | A larger payload is announced cut to 32 bits and never arrives as itself |
| `Framing.StreamRoundTrip` | src/network/cluster.cpp:40-94 | A sequence of messages under 2^32 bytes is received as sent, in order, with its request ids, and then the end |
| `Codecs.Connection.ReadExactly` | src/network/cluster.cpp:44-55 | However the bytes are fragmented, exactly the wanted ones are read, in order, or the connection ends |
| `Codecs.Connection.ReceiveMessage` | src/network/cluster.cpp:40-94 | However reads are fragmented, the result is the specified one: message, nothing, or the exception a bad magic number throws outside the handler |
| `Codecs.Connection.ReceiveAll` | src/network/cluster.cpp:831-850 | Receiving in a loop yields the messages of the stream in order |
| `Codecs.Connection.Deliver` | src/network/cluster.cpp:25-34 | However writes are fragmented, the bytes arrive in order |
| `Codecs.Connection.SendMessage` | src/network/cluster.cpp:19-38 | Sending delivers exactly the message's encoding |
| `SparseSpec.OverlayIsLastWrite` | include/elcache/sparse_cache.hpp:29-36 | Over any accepted writes each byte is that of the last write covering it, zero if none, and is marked exactly when one does |
| `SparseSpec.CompleteIffCovered` | include/elcache/sparse_cache.hpp:38-43 | An entry is complete exactly when the writes cover every byte |
| `SparseSpec.DisjointCommute` | include/elcache/sparse_cache.hpp:29-36 | Writes to disjoint ranges commute |
| `SparseSpec.DisjointOrderIrrelevant` | include/elcache/sparse_cache.hpp:29-36 | Any two orders of the same disjoint writes give the same entry |
| `SparseSpec.PartsRestore` | include/elcache/sparse_cache.hpp:29-91 | Parts of one value, in any order and overlap, restore it once they cover it |
| `SparseSpec.CheckIsExactIff` | include/elcache/sparse_cache.hpp:30 | The check of the 64-bit sum accepts exactly the writes inside the entry, unless the sum wraps to at most the size: then it accepts a write that lies outside |
| `SparseSpec.LastOffsetPasses` | include/elcache/sparse_cache.hpp:30 | An input for which it does: one byte at offset 2^64 - 1, for an entry of any size |
| `SparseSpec.Overlay` | include/elcache/sparse_cache.hpp:29-36 | A write changes exactly the bytes and marks it covers |
| `SparseCaches.SparseEntry.WriteRange` | include/elcache/sparse_cache.hpp:29-36 | The copy and the marking loop overlay the write in place, or nothing changes |
| `SparseCaches.SparseEntry.Fill` | include/elcache/sparse_cache.hpp:31-34 | The two loops together are the overlay |
| `SparseCaches.SparseEntry.IsComplete` | include/elcache/sparse_cache.hpp:38-43 | The loop answers whether every byte is marked |
| `SparseCaches.SparseCache.Create` | include/elcache/sparse_cache.hpp:61-68 | Creates a zeroed, unmarked entry, or refuses an existing key |
| `SparseCaches.SparseCache.WriteRange` | include/elcache/sparse_cache.hpp:72-77 | Writes to the key's entry alone; a missing key is refused |
| `SparseCaches.SparseCache.Finalize` | include/elcache/sparse_cache.hpp:81-91 | Code 1 for a missing key, 2 for an incomplete entry, 0 with the bytes and the entry gone |
| `SparseCaches.SparseCache.Exists` | include/elcache/sparse_cache.hpp:94-97 | Answers whether the key has an entry |
| `SparseCaches.SparseCache.Remove` | include/elcache/sparse_cache.hpp:117-120 | Drops an entry and tells whether there was one |
| `SdkTheorems.ExchangeIsDirect` | src/sdk/elcache_client.c:326-997 | A call through the wire, from the client's buffers through the server and back, does and returns exactly what the call means and leaves nothing on the connection, for every request that fits the buffers and is not a write whose end wraps to within its entry |
| `SdkTheorems.ExchangeReads` | src/sdk/elcache_client.c:326-997 | Whatever was left on the connection, the server does what the request means, and the client reads its result from what was there followed by the response |
| `SdkHistories.WrittenIsRead` | src/sdk/elcache_client.c:326-997 | End to end: through the wire, over any connections and from clients with any buffers that have room, an entry is created, written in ranges among any other calls, finalized, and read after any calls that do not put, delete or finalize its key; finalizing succeeds exactly when the accepted writes cover the entry, and then byte i of the get is that of the last write that covers byte offset + i, for as many bytes as asked for or as are left |
| `SdkHistories.PutIsRead` | src/sdk/elcache_client.c:326-997 | End to end for a put: it succeeds, and after any calls that leave the value alone byte i of a get is byte offset + i of what was put, for as many bytes as asked for or as are left |
| `SdkHistories.FinalizedIsRead` | src/network/unix_server.cpp:466-553 | Whatever calls are interleaved, finalizing succeeds exactly when the accepted writes cover the entry, and a get, after any calls that leave the value alone, returns for each byte of the asked part that of the last write that covers it, length 0 meaning to the end |
| `SdkHistories.StoredIsRead` | src/network/unix_server.cpp:346-441 | What was put is read, after any calls that leave the value alone, byte by byte |
| `SdkHistories.DeletedIsGone` | src/network/unix_server.cpp:443-464 | What was deleted is not found, after any calls that leave the value alone |
| `SdkHistories.CallKeepsOthers` | src/network/unix_server.cpp:321-553 | A call changes neither value nor entry of another key |
| `SdkHistories.CallScope` | src/network/unix_server.cpp:321-553 | A get changes nothing; only put, delete and finalize change values, and only create, range write and finalize change entries |
| `SdkHistories.CreateMakesEntry` | src/network/unix_server.cpp:466-488 | Creating succeeds exactly when there is no such entry, and makes one of the size asked for with no byte written |
| `SdkSpec.RangeIsPart` | src/network/unix_server.cpp:378-385 | Byte i of the part a get returns is byte offset + i of the value; there are as many as asked for or as are left, all that are left for length 0, none past the end |
| `SdkHistories.HistoryOverlays` | src/network/unix_server.cpp:490-526 | Whatever calls are interleaved, an open entry is the overlay of the writes accepted for it |
| `SdkTheorems.RangeCodesExact` | src/sdk/elcache_client.c:853-997 | Not found exactly for an absent entry, invalid argument exactly for a range past the end, partial exactly for an unwritten byte |
| `SdkHistories.ExchangedIsAfter` | src/sdk/elcache_client.c:326-997 | A history of calls through the wire, over any connections and from clients with any buffers that have room, leaves the server as the calls themselves would, and nothing unread on any connection |
| `SdkLeftovers.TooSmallTells` | src/sdk/elcache_client.c:381-441 | A get whose answer exceeds the caller's buffer says so, with the size needed exactly when the whole response fits the client's receive buffer; otherwise the answer stays on the connection. A receive buffer under 24 bytes is overrun |
| `SdkLeftovers.TinyBufferOverruns` | src/sdk/elcache_client.c:381-384 | A receive buffer under 24 bytes is overrun by every call that is answered, though the server does what the call means |
| `SdkLeftovers.OversizedGet` | src/sdk/elcache_client.c:381-406 | A get whose response does not fit a receive buffer of at least 24 bytes fails and leaves the whole answer on the connection |
| `SdkLeftovers.StaleGet` | src/sdk/elcache_client.c:381-392 | The next get on that connection takes the old answer for its own and fails with a protocol error |
| `SdkLeftovers.StaleCall` | src/sdk/elcache_client.c:577-591 | Any other call on that connection is carried out by the server, and the client takes bytes 8 to 11 of the old answer for the length of its response: it overruns its receive buffer if and only if that does not fit, a delete else reports success, and the others take the four bytes after the header for their code, read past the payload if it is shorter |
| `SdkLeftovers.StaleFields` | src/network/unix_server.cpp:390-408 | Those bytes are the highest byte of the old value's length and its first three bytes, and its bytes 15 to 18 |
| `SdkLeftovers.CallReads` | src/sdk/elcache_client.c:577-599 | What any call but a get makes of whatever comes in, by the length in the header alone |
| `SdkLeftovers.PutAfterOversizedGet` | src/sdk/elcache_client.c:402-583 | An input: with the default buffers, a get of a value of 256 KiB that starts with three bytes of 255, then a put |
| `SdkLeftovers.GetAllocIff` | src/sdk/elcache_client.c:464-507 | A get that allocates returns what a get should if and only if the response fits the receive buffer; for a larger value its second try fails with a protocol error, whatever size it allocates |
| `SdkSpec.ServeKeepsSound` | src/network/unix_server.cpp:300-344 | Whatever message arrives, every sparse entry keeps a mark per byte |
| `SdkTheorems.GetRecovered` | src/network/unix_server.cpp:346-372 | Parsing a get the client built recovers key, offset and length |
| `SdkTheorems.PutRecovered` | src/network/unix_server.cpp:413-430 | Parsing a put the client built recovers key and value |
| `SdkTheorems.KeyAloneRecovered` | src/network/unix_server.cpp:443-453 | Parsing a delete or finalize recovers the key |
| `SdkTheorems.CreateRecovered` | src/network/unix_server.cpp:466-479 | Parsing a create recovers key and size |
| `SdkTheorems.WriteRangeRecovered` | src/network/unix_server.cpp:490-509 | Parsing a range write recovers key, offset and data |
| `SdkTheorems.Handled` | src/network/unix_server.cpp:321-343 | The server does what the request means and answers accordingly |
| `SdkTheorems.GetRead` | src/sdk/elcache_client.c:408-461 | The client reads the server's answer to a get as the value, or as not found |
| `SdkTheorems.SendableIsBuilt` | src/sdk/elcache_client.c:346-374 | A request with room in the send buffer is built and not refused |
| `SdkTheorems.RequestSize` | src/sdk/elcache_client.c:346-366 | The size of every request the client builds |
| `SdkBounds.KeyOverreadIff` | src/network/unix_server.cpp:351-357 | The check of the key's announced length and the fixed fields, added in 32 bits, lets a read past the payload through if and only if the sum wraps to at most the payload's length |
| `SdkBounds.OverreadIff` | src/network/unix_server.cpp:346-538 | A request is read past its payload if and only if its kind is handled and the announced key length wraps that check, with the number of fixed bytes of each kind |
| `SdkBounds.BrokenIff` | src/network/unix_server.cpp:321-553 | The server leaves its buffers on a request if and only if it reads past the payload or a range write to an existing entry wraps its bounds check |
| `SdkBounds.LongKeyOverreads` | src/network/unix_server.cpp:443-450 | An input for which it does: a delete that announces a key of 2^32 - 1 bytes and sends none |
| `SdkBounds.OverrunIff` | src/sdk/elcache_client.c:346-366 | The client writes past its send buffer if and only if the request is a delete or finalize, or a get or create with a key within the limit, and is larger than the buffer |
| `SdkBounds.DefaultBufferHoldsChecked` | src/sdk/elcache_client.c:42-44 | With the default send buffer or a larger one only a delete or a finalize can do that |
| `SdkBounds.LongDeleteOverruns` | src/sdk/elcache_client.c:609-632 | An input for which it does: with the default buffer of 256 KiB, a delete of a key of that length |
| `SdkBounds.ReadUncheckedIff` | src/sdk/elcache_client.c:381-441 | Whatever comes in, a call leaves its receive buffer or what it received if and only if the header does not fit the buffer; or, for a get, the header is good, the payload fits and its fields overreach it; or, for any other call, the payload that comes does not fit or is too short for a code |
| `SdkBounds.GetUncheckedIff` | src/sdk/elcache_client.c:414-441 | The fields of a get's answer overreach it if and only if it is shorter than they are, or its data is shorter than announced and would fit the caller's buffer |
| `SdkBounds.CleanCallSafeIff` | src/sdk/elcache_client.c:381-591 | On a connection with nothing left on it, against this server, that happens if and only if the receive buffer is under 24 bytes, or 28 for anything but a get |
| `SdkClients.Client.Build` | src/sdk/elcache_client.c:326-374 | Checks the limits and writes header and payload into the send buffer as specified, taking the next request id |
| `SdkClients.Client.EncodePayload` | src/sdk/elcache_client.c:346-366 | The moving payload position writes the fields of each request in order |
| `SdkClients.Client.EncodeHeader` | src/sdk/elcache_client.c:135-143 | Writes the 24 header bytes in front of the payload and leaves it alone |
| `SdkClients.Client.RecvAll` | src/sdk/elcache_client.c:165-187 | The loop receives exactly the wanted bytes off the connection into the buffer, or takes all there are and reports failure |
| `SdkClients.Client.ReadResponse` | src/sdk/elcache_client.c:381-461 | Reads header and payload off the connection with the checks of each call, and leaves unread what it refuses |
| `SdkClients.Client.ReadGet` | src/sdk/elcache_client.c:408-461 | Reads code, optional metadata, length and data of a get's answer, with its error codes |
| `SdkClients.Client.ReadPayload` | src/sdk/elcache_client.c:913-931 | Reads the code of the other answers and maps it to the call's error codes |
| `SdkClients.Client.Call` | src/sdk/elcache_client.c:326-462 | A whole call against the server object is the specified exchange: the result, the server, what stays unread and the next request id; entries it adds are new objects, so calls can follow each other |
| `SdkClients.Client.GetAlloc` | src/sdk/elcache_client.c:464-507 | The first try into the receive buffer and the second one into a buffer of the reported or uninitialized size are the specified two calls |
| `UnixServers.DecodeInt` | src/network/unix_server.cpp:97-112 | The loop adds up little-endian bytes at a position |
| `UnixServers.ReadKey` | src/network/unix_server.cpp:351-357 | Reads the length-prefixed key with the 32-bit length check |
| `UnixServers.ReadGetArgs` | src/network/unix_server.cpp:346-372 | Reads the arguments of a get, with the range only when it is all there |
| `UnixServers.ReadPutArgs` | src/network/unix_server.cpp:413-430 | Reads the arguments of a put, dropping a truncated one |
| `UnixServers.ReadCreateArgs` | src/network/unix_server.cpp:466-479 | Reads the arguments of a create |
| `UnixServers.ReadWriteRangeArgs` | src/network/unix_server.cpp:490-509 | Reads the arguments of a range write, dropping a truncated one |
| `UnixServers.ReadKeyArg` | src/network/unix_server.cpp:443-453 | Reads the one argument of delete and finalize |
| `UnixServers.ReadMessage` | src/network/unix_server.cpp:300-319 | Reads header, magic number and payload of a request, or hangs up |
| `UnixServers.CopyRange` | src/network/unix_server.cpp:378-385 | The part of a value a get asks for: byte i of it is byte offset + i of the value, up to the length or the end |
| `UnixServers.BuildGetAnswer` | src/network/unix_server.cpp:390-408 | The answer to a get, byte for byte |
| `UnixServers.SyncCache.Put` | src/network/unix_server.cpp:45-48 | Binds one key |
| `UnixServers.SyncCache.Remove` | src/network/unix_server.cpp:58-61 | Unbinds one key and tells whether it was bound |
| `UnixServers.UnixServer.ServeGet` | src/network/unix_server.cpp:374-411 | Answers a get from the value bound to the key, or with not found |
| `UnixServers.UnixServer.ServePut` | src/network/unix_server.cpp:430-441 | Stores a value and answers |
| `UnixServers.UnixServer.ServeDelete` | src/network/unix_server.cpp:453-464 | Removes a value and answers |
| `UnixServers.UnixServer.ServeCreate` | src/network/unix_server.cpp:479-488 | Creates an entry and answers whether it did |
| `UnixServers.UnixServer.ServeWriteRange` | src/network/unix_server.cpp:509-526 | Writes a range and answers with code 0, 1 or 2 |
| `UnixServers.UnixServer.ServeFinalize` | src/network/unix_server.cpp:538-553 | Finalizes an entry into the values and answers with its code |
| `UnixServers.UnixServer.Dispatch` | src/network/unix_server.cpp:321-343 | Serves each kind of request; an unknown kind is dropped |
| `UnixServers.UnixServer.Process` | src/network/unix_server.cpp:300-344 | One request from header to response, as specified |

## Left out

- Coroutines, sockets, polling, threads, shared-memory transport and lock spinning: each locked operation is one step.
- Statistics counters, latency figures, error strings and completion percentages: easy members that nothing else uses.
- `check`, `metadata` and `exists` of the layers: they only read what get reads.
- Real hash functions: abstract, with collision-freedom where it is needed.
- Coordinator with a cluster, remote operations, and the `no_memory` and `no_disk` write options: the layers may then
  differ by choice.
- Disk index reload and descriptor files, whose parsing is a stub in the source; failing file operations.
- Message kinds the decoder does not handle; times that are not on the wire; the unused `last_seen` field of a node.
- Failure detection, which only drops timestamps; random choice of gossip targets; node events.
- Overlapping coroutine twins of the socket handlers; the client's streaming stubs; that the allocating get copies
  within its receive buffer.
- Overflow of 64-bit byte counters; allocation failure for very large sizes.
- `Hash128` in hexadecimal form: files are keyed by the chunk id itself.
- ArcLists.LruList.Assign: puts a new node in the old one's place instead of assigning through the iterator.
- HashRings.HashRing.GetNodes: for a ring with as many owners as are wanted; otherwise the source does not return.
- Codecs.View.TakeNumber: adds the weighted bytes where the source combines disjoint bits.
- SdkClients.Client.Build: stops where the source would write past its send buffer.
- SdkClients.Client.ReadResponse: stops where the source would write past its receive buffer or read past what it holds.
