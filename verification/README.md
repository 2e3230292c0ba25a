# Staqtapp-TDS in Dafny

A verified model of the parts of Staqtapp-TDS in which correctness is hard to see: the native handle index and its
frozen snapshots, the lock-free diagnostic ring, the UTF-8 chunk planner, the CSV scan kernel, the radix router, the two
crash-safe stores, the transition archive, the `.tds` file format, the directory read path and the write-ahead log.

Code that changes state is modelled by classes, arrays and loops, each method proved against a specification function or
a state machine. The theorems are about those specifications: what every step keeps, what holds in every state of every
run, and which two ways of computing a result agree.

- **Handle index** (`Probing`, `SlotTable`, `IndexRuns`, `Rehash`, `HandleIndex`, `FrozenIndex`). The open-addressing
  table refines a partial map; triangular probing covers the table and the resize rule leaves an empty slot, so the
  "full" failures are dead code; handles only grow; a handle reference resolves exactly while its key stayed bound and
  the table was not resized; a frozen index answers as the mutable one did.
- **Diagnostics** (`DiagRing`, `DiagCounters`). All interleavings of writers, reader and reset as a state machine with
  one step per atomic access: what no interleaving can do, and what can be brought about from every state at rest.
- **Text kernels** (`Utf8Plan`, `CsvScan`). The planner is optimal; the look-ahead CSV scanner refines a
  byte-at-a-time machine, and its two passes agree exactly under a condition on the dialect.
- **Radix router** (`RadixShape`, `Radix`). A mutable tree against its dictionary.
- **Stores** (`Segments`, `SegmentDisk`, `SegmentStore`, `SegmentedMount`, `GenerationDisk`, `CleanupPlan`,
  `GenerationStore`). The directory tree is a state machine of atomic effects; a crash is a run that stops anywhere.
  Verification is tied to the bytes themselves, so outside damage to data is noticed exactly.
- **Archive** (`ArchivePath`, `Archive`, `ArchiveIo`). The image format, its reader and the round trip; exactly which
  byte strings and which paths are accepted.
- **File format** (`SlotFormat`, `SlotIndex`, `TdsFile`, `TdsIo`, `FileName`).
- **Directory** (`Bloom`, `Registry`, `ReadPath`, `Wal`).

Properties that turned out not to hold for all inputs are given with an exact condition and a concrete input:

- The two CSV passes disagree when the delimiter is a line break that is not the quote (`CsvScan.AgreementIsExact`).
- A prune of more than 4096 generations that is cut off before its plan is used up is never finished by resuming it
  (`GenerationStore.ImmutableGenerationStore.PruneThenResume`, `GenerationStore.InterruptedPruneIsStuck`).
- Distinct directory paths can share a file name (`FileName.AmbiguousExactly`).
- A radix key stored with None is contained but not found (`Radix.RadixDirectoryRouter.GetItem`,
  `Radix.ContainedButNotFound`).

Where code and comments disagree the model follows the code: the write-ahead log stores the format before the name
(`src/staqtapp_tds/tds_filesystem.py:1741-1745` lists it after).

`dafny verify dfyconfig.toml` checks the whole project.

## Model

| member | source | states |
|---|---|---|
| Probing.ProbeStep | src/staqtapp_tds/_native_index.c:1281-1302 | advancing the slot by the probe number walks the triangular sequence |
| Probing.ProbesDistinct | src/staqtapp_tds/_native_index.c:1281-1302 | over a power-of-two capacity no two of the first `capacity` probes meet in one slot |
| Probing.ProbesCoverTable | src/staqtapp_tds/_native_index.c:1281-1302 | every slot of a power-of-two table is visited by exactly one of the first `capacity` probes |
| SlotTable.EmptyEndsSearch | src/staqtapp_tds/_native_index.c:1281-1302 | an empty slot on the probe path proves the key is nowhere in the table, tombstones and all |
| SlotTable.FullSearchRulesOutKey | src/staqtapp_tds/_native_index.c:1281-1302 | a key missed by a whole probe cycle is nowhere in the table |
| SlotTable.InsertKeepsTable | src/staqtapp_tds/_native_index.c:1400-1460 | filling the first reusable slot keeps every key reachable, binds just the new key and moves the full and tombstone counts by one |
| SlotTable.RemoveKeepsTable | src/staqtapp_tds/_native_index.c:1505-1523 | a tombstone keeps every other key reachable and unbinds just the popped key |
| IndexRuns.InvLeavesEmptySlot | src/staqtapp_tds/_native_index.c:1353-1364 | under the seventy-per-cent rule a reachable table always has an empty slot, so a search never fails to end |
| IndexRuns.StepKeepsInv | src/staqtapp_tds/_native_index.c:1324-1523 | every insert, removal and resize keeps the table invariant; an insert takes the first free slot of its probe path and only below seven tenths occupancy, a resize happens only from there on |
| IndexRuns.InsertKeepsInv | src/staqtapp_tds/_native_index.c:1400-1460 | an insert extends the partial map by its key and handle and keeps the invariant |
| IndexRuns.RemoveKeepsInv | src/staqtapp_tds/_native_index.c:1505-1523 | a removal deletes its key from the partial map and keeps the invariant |
| IndexRuns.RunInv | src/staqtapp_tds/_native_index.c:1324-1523 | from an empty table, every state that steps guarded only by what the code tests can reach satisfies the invariant |
| IndexRuns.HandlesIncrease | src/staqtapp_tds/_native_index.c:1366-1398 | over a whole run the handles given to new keys strictly increase, requested ones included and up to exhaustion at the largest 64-bit handle |
| IndexRuns.HandleNamesOneKey | src/staqtapp_tds/_native_index.c:1366-1398 | a handle never names two keys, at whatever two moments of a run |
| IndexRuns.CapacityIsLinear | src/staqtapp_tds/_native_index.c:1353-1364 | in every run the table has its first size or fewer than three slots for every key ever inserted |
| IndexRuns.RefResolvesIffBound | src/staqtapp_tds/_native_index.c:2304-2352 | a handle reference resolves to its handle exactly when no resize has happened since it was issued and its key has been bound at every moment since; otherwise it resolves to minus one |
| IndexRuns.BoundUntilRemoved | src/staqtapp_tds/_native_index.c:1400-1523 | a bound key stays bound through every stretch of a run without a removal, resizes included |
| HandleIndex.RoundPow2Checked | src/staqtapp_tds/_native_index.c:1194-1202 | exactly the smallest power of two from sixteen up that is not below the request, or overflow exactly when that exceeds the largest size |
| HandleIndex.FindSlot | src/staqtapp_tds/_native_index.c:1281-1302 | finds the key if and only if it is bound, and otherwise the first tombstone or empty slot on its path; gives up only on a table whose slots are all full |
| HandleIndex.MoveSlots | src/staqtapp_tds/_native_index.c:1324-1341 | a rehash into a larger table preserves the partial map and cannot fail in the middle |
| HandleIndex.NativeHandleIndex.Grow | src/staqtapp_tds/_native_index.c:1324-1351 | a resize doubles the table, keeps the map and the allocator, clears tombstones and advances the epoch; each of three failures has its exact condition and changes nothing |
| HandleIndex.NativeHandleIndex.MaybeResize | src/staqtapp_tds/_native_index.c:1353-1364 | resizes exactly when seven tenths of the slots are full or tombstones and nothing stands in the way; each failure has its exact condition; below that nothing changes |
| HandleIndex.NativeHandleIndex.HandleIsInUse | src/staqtapp_tds/_native_index.c:1366-1380 | true exactly when a live slot other than the excepted one holds the handle |
| HandleIndex.NativeHandleIndex.TakeHandle | src/staqtapp_tds/_native_index.c:1429-1448 | a granted handle is at or above the high-water mark, never live; each refusal has its exact cause |
| HandleIndex.NativeHandleIndex.Put | src/staqtapp_tds/_native_index.c:1400-1460 | success updates the map at one key with the requested handle, if one was requested, and otherwise the bound or the next one; each of ten failures happens exactly under its own condition, in the order the code tests them, and leaves the map unchanged; the table grows exactly when a new key finds it seven tenths occupied; the full-index failure is unreachable |
| HandleIndex.NativeHandleIndex.PutMany | src/staqtapp_tds/_native_index.c:1470-1479 | a batch binds a prefix of its keys in order, new keys get increasing handles between the old and the new high-water mark, and it stops short exactly where a single put fails, for that put's exact reason; an empty key refuses the batch before anything is put |
| HandleIndex.NativeHandleIndex.Lookup | src/staqtapp_tds/_native_index.c:1481-1489 | the value of the partial map, or minus one |
| HandleIndex.NativeHandleIndex.LookupMany | src/staqtapp_tds/_native_index.c:1499-1503 | pointwise the single lookup; an empty key refuses the batch |
| HandleIndex.NativeHandleIndex.Pop | src/staqtapp_tds/_native_index.c:1505-1523 | returns the bound handle and unbinds exactly that key |
| HandleIndex.NativeHandleIndex.PopMany | src/staqtapp_tds/_native_index.c:1533-1537 | the single pops in order; an empty key refuses the batch before anything is popped |
| HandleIndex.NativeHandleIndex.GetHandleRef | src/staqtapp_tds/_native_index.c:2304-2329 | a reference exists exactly for a bound key and names its slot, generation and epoch |
| HandleIndex.NativeHandleIndex.ResolveHandleRef | src/staqtapp_tds/_native_index.c:2331-2352 | for every reference ever issued by this index, resolution succeeds exactly under the condition of the run theorem |
| HandleIndex.ResolveAfterPut | src/staqtapp_tds/_native_index.c:1353-1460 | a reference taken before a put of any key still resolves to its handle after it, unless that put grew the table, and then it does not |
| HandleIndex.CreateIndex | src/staqtapp_tds/_native_index.c:2092-2117 | an empty valid index of the rounded size under the next namespace, or one of four errors, each exactly under its own condition |
| FrozenIndex.FrozenCapacity | src/staqtapp_tds/_native_index.c:1563-1595 | the smallest power of two from sixteen up that holds twice the keys, so more slots than keys, or overflow exactly when that exceeds the largest size |
| FrozenIndex.CopySlots | src/staqtapp_tds/_native_index.c:1922-2037 | copies every live key once: same map, and the count that the mismatch check compares |
| FrozenIndex.Freeze | src/staqtapp_tds/_native_index.c:1922-2037 | succeeds exactly when nothing overflows, memory suffices and an identity is left, each error exactly under its own condition; the frozen map equals the mutable one, and the count-mismatch error is unreachable |
| FrozenIndex.FreezeIsImmutable | src/staqtapp_tds/_native_index.c:1922-2037 | after any sequence of single and batch puts and pops on the source, resizes included, the frozen index answers every key with the map at the freeze |
| FrozenIndex.NativeFrozenHandleIndex.Lookup | src/staqtapp_tds/_native_index.c:1667-1714 | the frozen map pointwise |
| FrozenIndex.ValidatePackedOffsets | src/staqtapp_tds/_native_index.c:1716-1769 | accepts exactly the tables of at most 65536 non-empty consecutive spans that start at zero and end at the key bytes; a refusal names the shape or the first span at fault |
| FrozenIndex.OffsetOrder | src/staqtapp_tds/_native_index.c:1716-1769 | offsets of an accepted table strictly increase and stay within the key bytes |
| FrozenIndex.NativeFrozenHandleIndex.LookupPacked | src/staqtapp_tds/_native_index.c:1597-1618 | for every accepted table the output decodes, little-endian and signed, to the pointwise lookup of each span; a rejected call leaves the output alone |
| FrozenIndex.StoreLe64 | src/staqtapp_tds/_native_index.c:1552-1561 | loading the eight bytes stored gives the value back, and no other byte changes |
| IntCodec.BigEndianRoundTrip | src/staqtapp_tds/tds_persistence.py:166-221 | unpacking undoes packing for every value that fits the width |
| IntCodec.BigEndianReprints | src/staqtapp_tds/tds_persistence.py:356-357 | packing undoes unpacking for every byte string |
| IntCodec.LittleEndianRoundTrip | src/staqtapp_tds/_native_index.c:1539-1561 | loading undoes storing |
| DiagRing.NextKeepsInv | src/staqtapp_tds/_native_index.c:271-404 | every step of every writer, the reader and reset keeps the ring invariant |
| DiagRing.RunInv | src/staqtapp_tds/_native_index.c:271-466 | every state of every interleaving satisfies it |
| DiagRing.OneOwnerPerSlot | src/staqtapp_tds/_native_index.c:326-366 | no two writers are ever storing into one slot |
| DiagRing.ClearingExcludesWriters | src/staqtapp_tds/_native_index.c:744-794 | from the last look at the writer count until reset has cleared the ring no writer is inside it |
| DiagRing.PublishedByAWriter | src/staqtapp_tds/_native_index.c:341-366 | whatever is published under a sequence was the complete event of one writer that was about to publish it |
| DiagRing.SnapshotIsOneWritersEvent | src/staqtapp_tds/_native_index.c:368-404 | a snapshot that succeeds for a sequence returns exactly the fields one writer published for it: no tearing |
| DiagRing.EventGetsThrough | src/staqtapp_tds/_native_index.c:326-404 | from every reachable state at rest every event a writer brings can be published under the next sequence and read back whole by a snapshot, and the ring comes to rest again |
| DiagRing.ClaimAndPublish | src/staqtapp_tds/_native_index.c:326-366 | from every reachable state a writer that finds the even version it read unchanged goes on to publish any event under its sequence |
| DiagRing.GivesUpOnlyToAnother | src/staqtapp_tds/_native_index.c:326-339 | a writer loses its sequence unpublished only where another writer is storing into the same slot or has claimed it since the version was read |
| DiagRing.ResetCompletes | src/staqtapp_tds/_native_index.c:744-794 | from every reachable state at rest a reset runs to its end and leaves the ring as new |
| DiagRing.ResetWaitsForFew | src/staqtapp_tds/_native_index.c:744-794 | while the reset flag is up every step of a writer brings the writers nearer to rest, and at rest none is counted: the wait ends |
| DiagRing.VersionNeverWraps | src/staqtapp_tds/_native_index.c:297-340 | slot versions stay far below 64-bit overflow in every run, so a version cannot recur |
| DiagCounters.SamplerLaw | src/staqtapp_tds/_native_index.c:313-324 | after n automatic attempts exactly min(n, burst) plus the whole intervals beyond the burst have passed |
| DiagCounters.StepKeepsInv | src/staqtapp_tds/_native_index.c:406-467 | every counter update of every writer keeps eight books: kinds of attempt, verdicts, passes, outcomes, emissions, drops and wrap-arounds |
| DiagCounters.CountersExact | src/staqtapp_tds/_native_index.c:313-467 | in every quiescent state each counter has grown by exactly what happened: sampled out by the automatic attempts that did not pass, emitted by the publications, dropped by refusals and overwritten events, wrap-arounds by the overwritten events; the sampler law holds |
| DiagCounters.OneEvent | src/staqtapp_tds/_native_index.c:406-467 | from every reachable state at rest a writer can carry a manual or automatic event to each of its ends, and the counters show exactly that |
| DiagCounters.CountersBalance | src/staqtapp_tds/_native_index.c:406-467 | in every quiescent state of a reset-free, unsaturated run attempts equal emitted plus sampled out plus (dropped minus wrap-arounds) |
| Utf8Plan.CodePointWidth | src/staqtapp_tds/_native_index.c:1047-1116 | the width of the code point of section 4 of RFC 3629 at a position, or the exact reason there is none: a bad lead byte, a truncated sequence or a bad continuation |
| Utf8Plan.WellFormedExactly | src/staqtapp_tds/_native_index.c:1047-1116 | the well-formed inputs are exactly the encodings of sequences of Unicode scalar values by section 3 of RFC 3629 |
| Utf8Plan.PlanBounds | src/staqtapp_tds/_native_index.c:1118-1165 | accepts exactly the well-formed inputs; its bounds are a legal and greedy plan; an error explains the first ill-formed position; the capacity error is unreachable |
| Utf8Plan.ChunksWellFormed | src/staqtapp_tds/_native_index.c:1118-1165 | every chunk of a legal plan is itself well formed |
| Utf8Plan.GreedyStaysAhead | src/staqtapp_tds/_native_index.c:1118-1165 | after any number of chunks no legal plan is further than the greedy one |
| Utf8Plan.GreedyIsShortest | src/staqtapp_tds/_native_index.c:1118-1165 | no legal plan uses fewer chunks than the planner |
| Utf8Plan.ChunkBounds | src/staqtapp_tds/_native_index.c:2681-2746 | the public call: rejects a bad chunk size, otherwise a plan no longer than any legal one, or the error at the first ill-formed position |
| CsvScan.TurnsRefineBytes | src/staqtapp_tds/_csv_scan_kernel.c:253-320 | the look-ahead scanner finds the rows of the byte-at-a-time reference machine, from every state |
| CsvScan.RowsAreByteRows | src/staqtapp_tds/_csv_scan_kernel.c:253-320 | so it finds them for every input and dialect |
| CsvScan.MarksRefineBytes | src/staqtapp_tds/_csv_scan_kernel.c:141-251 | under a safe dialect the counting loop, which looks ahead, counts the same things in the same order as the byte-at-a-time machine, from every state |
| CsvScan.RowsOrdered | src/staqtapp_tds/_csv_scan_kernel.c:253-320 | offsets start at zero, strictly increase and stay below the input length |
| CsvScan.SpansTile | src/staqtapp_tds/_csv_scan_kernel.c:610-634 | spans sum to the part of the input after the first offset |
| CsvScan.ScanCounts | src/staqtapp_tds/_csv_scan_kernel.c:141-251 | row count and longest span of the counting pass, and for every safe dialect all eight tallies of the byte-at-a-time machine: line ends by kind, quoted newlines, delimiters, quotes, doubled quotes and escapes; quote parity tells an open quote |
| CsvScan.FillOffsets | src/staqtapp_tds/_csv_scan_kernel.c:253-320 | fills exactly the rows of the filling pass, or reports that they do not fit |
| CsvScan.PassesAgree | src/staqtapp_tds/_csv_scan_kernel.c:346-352 | under a safe dialect the two passes see the same rows |
| CsvScan.AgreementIsExact | src/staqtapp_tds/_csv_scan_kernel.c:346-352 | the two passes agree on every input if and only if the delimiter is not a line feed or carriage return, or equals the quote |
| CsvScan.DelimiterHidesRow | src/staqtapp_tds/_csv_scan_kernel.c:346-352 | for every other dialect a two-byte input on which they differ |
| CsvScan.ScanBytes | src/staqtapp_tds/_csv_scan_kernel.c:376-516 | raises the invariant error exactly when the passes differ in number; otherwise the reference rows, the longest record and the open-quote flag, and for every safe dialect the reference tallies |
| CsvScan.RowOffsets | src/staqtapp_tds/_csv_scan_kernel.c:518-634 | for every input, quote, escape and doublequote setting: reference rows, spans that sum to the length, and their maximum; the invariant error is unreachable |
| CsvScan.BuildSpans | src/staqtapp_tds/_csv_scan_kernel.c:610-634 | consecutive differences of the offsets |
| Radix.CommonPrefix | src/staqtapp_tds/radix.py:18-23 | the longest common prefix |
| Radix.RadixDirectoryRouter.Insert | src/staqtapp_tds/radix.py:62-91 | through walks, leaf attachment and edge splits the tree stays compressed and spells the updated dictionary; the empty key is refused |
| Radix.RadixDirectoryRouter.SplitEdge | src/staqtapp_tds/radix.py:78-89 | splitting an edge and hanging the new suffix keeps the tree and adds the one item |
| Radix.RadixDirectoryRouter.Lookup | src/staqtapp_tds/radix.py:93-102 | for every string the tree answers as the dictionary does |
| Radix.RadixDirectoryRouter.Delete | src/staqtapp_tds/radix.py:104-115 | removes one item and rebuilds a tree for the rest |
| Radix.RadixDirectoryRouter.GetItem | src/staqtapp_tds/radix.py:43-60 | membership follows the dictionary; a key is contained and yet not found exactly when it is stored with None |
| Radix.ContainedButNotFound | src/staqtapp_tds/radix.py:43-60 | a router into which one key has been stored with None contains it and does not find it |
| RadixShape.TreeIsCompact | src/staqtapp_tds/radix.py:62-115 | when no stored value is None, every valueless node below the root has two children; the nodes below the root number at most twice the items minus one |
| ArchivePath.SafeRelativeIdempotent | src/staqtapp_tds/guaranteed_storage.py:343-354 | an accepted path is accepted again, as itself |
| ArchivePath.SafeRelativeExactly | src/staqtapp_tds/guaranteed_storage.py:343-354 | a path is accepted exactly when it is well-formed UTF-8, does not start with a slash, has a component other than empty and one dot, and has no component that is two dots or holds a back-slash or a NUL; the value is its named components in order |
| ArchivePath.AcceptedAreNormal | src/staqtapp_tds/guaranteed_storage.py:343-354 | every accepted value is a list of plain names, and those are exactly the paths accepted as themselves |
| Archive.ImageReadsBack | src/staqtapp_tds/guaranteed_storage.py:605-674 | the image of a list of files parses to that mount if and only if the paths are safe and pairwise apart under both identities and the tree order and there are at most a million; otherwise it is refused |
| Archive.PathErrorExact | src/staqtapp_tds/guaranteed_storage.py:621-648 | the collision checks refuse exactly a file that is not apart from one already read |
| Archive.PathErrorKind | src/staqtapp_tds/guaranteed_storage.py:621-648 | each path refusal says which collision with the files already read applies first |
| Archive.EntryReads | src/staqtapp_tds/guaranteed_storage.py:610-674 | the reader undoes one entry of the writer |
| Archive.ImagesArePrefixFree | src/staqtapp_tds/guaranteed_storage.py:605-674 | every strict prefix and every extension of an accepted image is refused |
| Archive.AcceptedIsImage | src/staqtapp_tds/guaranteed_storage.py:605-674 | a byte string is accepted exactly when it is the image of a safe mount, so with every payload digest right |
| Archive.AcceptedPathsAreNormal | src/staqtapp_tds/guaranteed_storage.py:343-354 | every path of an accepted image stays inside its directory |
| ArchiveIo.ArchiveChunks | src/staqtapp_tds/guaranteed_storage.py:202-225 | the chunks concatenate to the image; a path that is empty or too long is refused |
| ArchiveIo.SegmentArchiveReader.Read | src/staqtapp_tds/guaranteed_storage.py:121-139 | returns the next bytes of the concatenation whatever the chunk boundaries; a negative size reads all; closed readers refuse |
| ArchiveIo.ReadEntry | src/staqtapp_tds/guaranteed_storage.py:607-674 | one turn of the loop computes the specification, errors in the same order |
| ArchiveIo.Materialize | src/staqtapp_tds/guaranteed_storage.py:593-674 | the whole loop computes the parse of the concatenated chunks, and every path it materialises stays inside the directory |
| ArchiveIo.ArchiveAndMaterialize | src/staqtapp_tds/guaranteed_storage.py:202-225 | archive, cut into segments, read back and materialise: the identity on every safe mount and a refusal on every other |
| Segments.SplitStream | src/staqtapp_tds/segment_store.py:294-305 | the segment list is a function of the concatenated bytes alone |
| Segments.CutCovers | src/staqtapp_tds/segment_store.py:294-305 | segments concatenate to the stream, all full but the last |
| SegmentDisk.StepKeepsGeneration | src/staqtapp_tds/segment_store.py:526-535 | a verifying generation is only ever lost to its own deletion, and no other step changes its bytes |
| SegmentDisk.StepKeepsInv | src/staqtapp_tds/segment_store.py:185-332 | every atomic effect keeps segments named by content and the pointer absent or on a verifying generation |
| SegmentDisk.CurrentAlwaysVerifies | src/staqtapp_tds/segment_store.py:185-332 | so at every state of every run of commits, deletions and collections, wherever it crashes |
| SegmentDisk.GenerationsSurvive | src/staqtapp_tds/segment_store.py:541-644 | through any stretch of a run a verifying generation keeps verifying with the same bytes until it is itself deleted |
| SegmentDisk.CurrentIsNeverDeleted | src/staqtapp_tds/segment_store.py:526-535 | the generation named by the pointer survives the next step with its bytes |
| SegmentDisk.VerifiesExactly | src/staqtapp_tds/segment_store.py:344-437 | a generation verifies exactly when it has a whole manifest of its own within the budgets, every segment is there, is the content of its name and has its size, and logical size and digest are those of the bytes |
| SegmentDisk.DamageIsSeen | src/staqtapp_tds/segment_store.py:344-437 | a generation that verified still does after outside changes to segment files exactly when none of its own segments changed |
| SegmentStore.StreamVerifies | src/staqtapp_tds/segment_store.py:344-437 | once its segments are stored a stream verifies exactly when its header passes, and reads back as the stream |
| SegmentStore.ImmutableSegmentStore.Verify | src/staqtapp_tds/segment_store.py:344-437 | on any disk accepts exactly the generations that verify; logical size and digest are then those of the bytes |
| SegmentStore.ImmutableSegmentStore.StoreSegment | src/staqtapp_tds/segment_store.py:185-214 | publishes content under its digest once; the reuse check cannot fail on a content-addressed store |
| SegmentStore.ImmutableSegmentStore.StoreSegments | src/staqtapp_tds/segment_store.py:278-305 | counts and bytes reported equal the growth of the store |
| SegmentStore.ImmutableSegmentStore.CommitLocked | src/staqtapp_tds/segment_store.py:266-332 | succeeds exactly under its stated conditions with the whole new disk given; failure leaves the pointer and all other generations |
| SegmentStore.ImmutableSegmentStore.CommitStream | src/staqtapp_tds/segment_store.py:261-332 | the same with the mutation lock taken and released |
| SegmentStore.ImmutableSegmentStore.CommitMount | src/staqtapp_tds/guaranteed_storage.py:294-331 | commits an image and restores the old pointer when the source changed |
| SegmentStore.ImmutableSegmentStore.IterGenerationBytes | src/staqtapp_tds/segment_store.py:465-478 | on any disk streams exactly the bytes of a generation that verifies, the current one by default |
| SegmentStore.ReadAfterDamage | src/staqtapp_tds/segment_store.py:465-478 | opening a store whose segment files were damaged and reading a generation gives the bytes committed, or an error exactly when one of its segments changed |
| SegmentStore.ImmutableSegmentStore.ReferenceScan | src/staqtapp_tds/segment_store.py:504-524 | counts for each segment the verifying generations that need it, and lists exactly the invalid ones |
| SegmentStore.ImmutableSegmentStore.DeleteGeneration | src/staqtapp_tds/segment_store.py:526-535 | succeeds exactly on a verifying generation that is not current, and removes only it |
| SegmentStore.ImmutableSegmentStore.Collect | src/staqtapp_tds/segment_store.py:537-644 | removes exactly the unreferenced segments unless dry or blocked by an invalid generation; removed bytes balance; every generation still verifies with the same bytes |
| SegmentStore.StoredBytesWithout | src/staqtapp_tds/segment_store.py:609-622 | the accounting of stored bytes does not depend on the order of removal |
| SegmentStore.CollectKeepsGenerations | src/staqtapp_tds/segment_store.py:541-644 | removing segments no verifying generation refers to changes none of them |
| SegmentedMount.CommitMountSegmented | src/staqtapp_tds/guaranteed_storage.py:294-331 | succeeds exactly under its stated conditions; a committed mount is current and its bytes are its image, a safe one parses back to itself; a refusal leaves the pointer |
| SegmentedMount.MaterializeGeneration | src/staqtapp_tds/guaranteed_storage.py:586-591 | materialises the image a generation holds |
| SegmentedMount.MountSurvives | src/staqtapp_tds/guaranteed_storage.py:294-331 | a safe mount committed once materialises as itself at every later point of the run until its generation is deleted |
| GenerationDisk.StepKeepsGeneration | src/staqtapp_tds/generation_store.py:706-720 | a verifying generation is only taken away by a quarantine, never while current, pinned or newest valid |
| GenerationDisk.StepKeepsInvariants | src/staqtapp_tds/generation_store.py:293-316 | every step keeps CURRENT and the pins on verifying generations |
| GenerationDisk.CurrentAlwaysVerifies | src/staqtapp_tds/generation_store.py:377-434 | once a generation is promoted CURRENT names a verifying one wherever the run stops |
| GenerationDisk.ProtectedSurvives | src/staqtapp_tds/generation_store.py:697-704 | while it stays current, pinned or newest a generation keeps its contents |
| GenerationDisk.NewestNeverRetreats | src/staqtapp_tds/generation_store.py:697-704 | through any run the newest valid generation is followed only by a newer one: a store that had a valid generation always has one |
| GenerationDisk.VerifiesExactly | src/staqtapp_tds/generation_store.py:482-530 | a generation verifies exactly when it has whole metadata of its own within the budgets and its size and digest are those of the very bytes in the data file |
| GenerationDisk.DamageIsSeen | src/staqtapp_tds/generation_store.py:509-522 | a generation that verified still does after outside changes to data files exactly when its own bytes are the same |
| CleanupPlan.ProtectionUnmoved | src/staqtapp_tds/generation_store.py:697-704 | removing an unprotected generation neither protects nor exposes another |
| CleanupPlan.PlansConverge | src/staqtapp_tds/generation_store.py:706-745 | however the steps of a plan are interrupted and repeated the end is the one an uninterrupted run reaches |
| CleanupPlan.FinalKeeps | src/staqtapp_tds/generation_store.py:722-739 | a finished plan leaves everything protected and every non-candidate in place |
| GenerationStore.RankIsPosition | src/staqtapp_tds/generation_store.py:697-704 | in the newest-first list a position is the number of newer valid generations |
| GenerationStore.ImmutableGenerationStore.ProtectedIds | src/staqtapp_tds/generation_store.py:697-704 | computes exactly the protected set |
| GenerationStore.ProtectedExactly | src/staqtapp_tds/generation_store.py:697-704 | what is protected is a set of the kept number of valid generations, or all if fewer, each newer than every valid one outside it, and the current and pinned ones |
| GenerationStore.ImmutableGenerationStore.CommitChunks | src/staqtapp_tds/generation_store.py:377-434 | under a new identifier, succeeds exactly under its stated conditions with the whole new disk given; each of three failures has its exact cause and its exact disk |
| GenerationStore.ImmutableGenerationStore.PinGeneration | src/staqtapp_tds/generation_store.py:645-652 | pins exactly what verifies, so only a generation whose metadata was written for its bytes |
| GenerationStore.ImmutableGenerationStore.UnpinGeneration | src/staqtapp_tds/generation_store.py:654-664 | needs acknowledgement only for a generation that is pinned |
| GenerationStore.ImmutableGenerationStore.DeleteRestartable | src/staqtapp_tds/generation_store.py:706-720 | from wherever an earlier attempt stopped, advances to the same end and touches nothing else |
| GenerationStore.ImmutableGenerationStore.ExecutePlan | src/staqtapp_tds/generation_store.py:722-739 | either reaches the final disk with an exact report or stops at a state that still leads there, with something left of an untouched plan exactly when the power lasted less than twice its length |
| GenerationStore.ImmutableGenerationStore.ResumeCleanup | src/staqtapp_tds/generation_store.py:741-745 | resumes a published plan and reports exactly what was removed and what was skipped as protected; refuses one over the candidate budget |
| GenerationStore.ImmutableGenerationStore.ResumeUntilDone | src/staqtapp_tds/generation_store.py:741-745 | any number of interrupted resumptions and a last one end as one resumption does |
| GenerationStore.ResumingMatchesRunning | src/staqtapp_tds/generation_store.py:683-695 | resuming removes what an uninterrupted run removes if and only if the plan has at most 4096 candidates or none of them is left to remove |
| GenerationStore.ImmutableGenerationStore.Prune | src/staqtapp_tds/generation_store.py:747-761 | removes exactly the valid generations outside the protected set, or stops at a state that leads there |
| GenerationStore.ImmutableGenerationStore.PruneThenResume | src/staqtapp_tds/generation_store.py:683-761 | a prune cut off after n effects and then resumed any number of times ends with the generations of an uncut prune if and only if it had at most 4096 generations to remove or n is at least twice their number |
| GenerationStore.InterruptedPruneIsStuck | src/staqtapp_tds/generation_store.py:683-695 | 4098 valid generations and a prune cut off once its plan is written: however often it is resumed, generations that should go stay |
| GenerationStore.ImmutableGenerationStore.Recover | src/staqtapp_tds/generation_store.py:550-611 | on any disk: the current generation if it verifies, else the newest valid one, with CURRENT repaired to it; what is mounted holds the bytes its metadata was written for |
| GenerationStore.RecoverAfterDamage | src/staqtapp_tds/generation_store.py:550-611 | opening a store whose data files were damaged mounts the current generation if it is undamaged, else the newest undamaged one, and never one whose bytes changed |
| SlotFormat.PrintThenParse | src/staqtapp_tds/tds_persistence.py:282-403 | printed records parse back to themselves if and only if names are well-formed, checksummed and distinct; otherwise the parse fails |
| SlotFormat.ParseThenPrint | src/staqtapp_tds/tds_persistence.py:326-403 | every accepted buffer prints back to itself, in the declared number of records |
| SlotFormat.InRangeExactly | src/staqtapp_tds/tds_persistence.py:282-323 | a record fits exactly when each of its fields can be read back from its fixed header |
| SlotIndex.StoreField | src/staqtapp_tds/tds_persistence.py:166-221 | the shifted bytes stored are the big-endian field |
| SlotIndex.PackSlotFixedBatch | src/staqtapp_tds/tds_persistence.py:166-221 | the kernel fills the buffer with the records' fixed headers in order |
| SlotIndex.ByNameFinds | src/staqtapp_tds/tds_persistence.py:264-276 | over distinct names the dictionary finds exactly the listed records |
| SlotIndex.SlotTableIndex.Add | src/staqtapp_tds/tds_persistence.py:264-267 | appends the record and keeps the dictionary |
| SlotIndex.SlotTableIndex.Lookup | src/staqtapp_tds/tds_persistence.py:270-272 | the last record added under the name |
| SlotIndex.SlotTableIndex.ToBytes | src/staqtapp_tds/tds_persistence.py:282-323 | the printed index, or a refusal exactly when a field does not fit |
| SlotIndex.FromBytes | src/staqtapp_tds/tds_persistence.py:326-403 | computes the parse with its errors; the final count check cannot fail |
| TdsFile.HeaderReadsBack | src/staqtapp_tds/tds_persistence.py:134-158 | a built header parses to itself exactly for versions one and two |
| TdsFile.HeaderReprints | src/staqtapp_tds/tds_persistence.py:144-158 | every accepted header prints back to itself |
| TdsFile.HeaderInRangeExactly | src/staqtapp_tds/tds_persistence.py:134-142 | a header fits exactly when each of its fields can be read back |
| TdsFile.OpenedFileIsWhole | src/staqtapp_tds/tds_persistence.py:439-546 | an accepted file is its header, its payload block and its index, with every slot inside the block |
| TdsFile.OpensExactly | src/staqtapp_tds/tds_persistence.py:439-546 | the reader accepts exactly the files made of a sealed header of a known version, a payload block between it and the index, and an index of the declared number of readable records whose slots lie in the block |
| TdsFile.WrittenFileOpens | src/staqtapp_tds/tds_persistence.py:887-941 | a file laid out by the non-recursive writer passes every reader check and shows its records |
| TdsFile.SlotsTileBlock | src/staqtapp_tds/tds_persistence.py:887-941 | each slot holds its exact payload, and the slots tile the payload block end to end |
| TdsFile.SlotKeyInjective | src/staqtapp_tds/tds_persistence.py:856-858 | slot keys of one directory are distinct for distinct names |
| TdsIo.WriteDirectory | src/staqtapp_tds/tds_persistence.py:887-941 | writes exactly the specified bytes, or refuses exactly when a field does not fit |
| TdsIo.OpenReader | src/staqtapp_tds/tds_persistence.py:439-546 | opens exactly the files that pass every check, with the first failing check as error |
| TdsIo.TdsReader.StoredPayload | src/staqtapp_tds/tds_persistence.py:654-672 | for any record: its bytes exactly when it lies in the payload block; the check cannot fail for a record of the file's own index |
| TdsIo.WriteThenRead | src/staqtapp_tds/tds_persistence.py:887-941 | write, open and read every slot: the payloads in order |
| FileName.EncodeInjective | src/staqtapp_tds/tds_persistence.py:1037-1042 | escaping a component loses nothing |
| FileName.DecodeUndoesEncode | src/staqtapp_tds/tds_persistence.py:1037-1042 | ordinary percent-decoding gives every component back |
| FileName.OrdinaryUnchanged | src/staqtapp_tds/tds_persistence.py:1037-1042 | a component keeps its own name exactly when it has no percent sign and no two underscores in a row |
| FileName.NamesDistinct | src/staqtapp_tds/tds_persistence.py:1037-1045 | distinct lists of non-empty components with no lone leading underscore get distinct file names |
| FileName.SameNameSlides | src/staqtapp_tds/tds_persistence.py:1037-1045 | two paths with one file name differ by an underscore that slid across a separator |
| FileName.AmbiguousExactly | src/staqtapp_tds/tds_persistence.py:1037-1045 | a path shares its file name with another if and only if some component can hand its trailing underscore to, or take a leading one from, what follows |
| FileName.Collision | src/staqtapp_tds/tds_persistence.py:1037-1045 | the components `a_`, `b` and the components `a`, `_b` share a file name |
| Bloom.SetBitAt | src/staqtapp_tds/tds_filesystem.py:350-362 | setting one bit position sets it and no other |
| Bloom.BloomFilter.Add | src/staqtapp_tds/tds_filesystem.py:350-362 | the set bits are exactly the positions of the keys added so far |
| Bloom.BloomFilter.Contains | src/staqtapp_tds/tds_filesystem.py:333-347 | true exactly when every position of the key is a position of some key added: never false for a key that was added |
| Registry.EvictKeepsInv | src/staqtapp_tds/tds_filesystem.py:437-448 | eviction keeps the key, slot and handle correspondences and forgets just the victim |
| Registry.PlaceKeepsInv | src/staqtapp_tds/tds_filesystem.py:450-469 | filling a free slot keeps them and adds just the key |
| Registry.RevalueKeepsInv | src/staqtapp_tds/tds_filesystem.py:453-458 | replacing a value through its handle changes one key, as no two keys share a handle |
| Registry.HybridRegistry.FreeSlot | src/staqtapp_tds/tds_filesystem.py:430-435 | the first free slot, or when none is free the first of the lowest-scored ones |
| Registry.HybridRegistry.EvictSlot | src/staqtapp_tds/tds_filesystem.py:437-448 | the cached keys and their use counts lose the slot's key; an inactive slot changes nothing |
| Registry.HybridRegistry.Put | src/staqtapp_tds/tds_filesystem.py:450-469 | the key is cached with the value and counted as used now; nothing is forgotten unless every slot is taken by another key, and then only the first of lowest score |
| Registry.HybridRegistry.Get | src/staqtapp_tds/tds_filesystem.py:471-478 | the cached value or a miss, with the cache unchanged but for one more use of the key, now |
| Registry.HybridRegistry.Remove | src/staqtapp_tds/tds_filesystem.py:480-484 | forgets the key |
| ReadPath.TDSDirectory.WriteEntry | src/staqtapp_tds/tds_filesystem.py:996-1000 | index, filter and registry stay consistent with the history of operations |
| ReadPath.TDSDirectory.ReadValue | src/staqtapp_tds/tds_filesystem.py:1243-1281 | after any history of writes, deletes and reads: the last value written and not deleted since, or the missing-key error |
| ReadPath.TDSDirectory.DeleteEntry | src/staqtapp_tds/tds_filesystem.py:1333-1342 | removes the entry from index and registry; a stale filter bit is harmless |
| ReadPath.TracksWrite | src/staqtapp_tds/tds_filesystem.py:996-1000 | the index after a write holds the live values of the longer history |
| Wal.WholeRecord | src/staqtapp_tds/tds_filesystem.py:1776-1809 | a whole record at the cursor is applied with its name, format and value |
| Wal.TornRecord | src/staqtapp_tds/tds_filesystem.py:1776-1809 | a record cut short at any byte ends the replay |
| Wal.WholeBeforeExact | src/staqtapp_tds/tds_filesystem.py:1776-1809 | the count of records before a cut is the largest number whose bytes fit |
| Wal.PackableExactly | src/staqtapp_tds/tds_filesystem.py:1756-1768 | an entry can be appended exactly when every number in its record can be read back |
| Wal.ReplayAfterTruncation | src/staqtapp_tds/tds_filesystem.py:1776-1809 | replaying any truncation of a log applies exactly the records wholly before the cut, in order |
| Wal.AppliedIsFrame | src/staqtapp_tds/tds_filesystem.py:1776-1809 | on any file, what replay applies at a cursor is a framed record: its last four bytes are the checksum of all its bytes before them |
| Wal.FrameIsApplied | src/staqtapp_tds/tds_filesystem.py:1776-1809 | every framed record with a UTF-8 name and a decodable payload is applied |
| Wal.ReplayExactly | src/staqtapp_tds/tds_filesystem.py:1776-1809 | on any file replay applies the framed records at its front in order and nothing beyond the first place where none stands |
| Wal.WriteAheadLog.Append | src/staqtapp_tds/tds_filesystem.py:1756-1768 | appends one record, or nothing when a field does not fit |
| Wal.WriteAheadLog.AppendAll | src/staqtapp_tds/tds_filesystem.py:1756-1768 | appended entries make up the log |
| Wal.WriteAheadLog.Replay | src/staqtapp_tds/tds_filesystem.py:1776-1809 | the loop computes the replay specification |

## Left out

- Memory order: every atomic access is one sequentially consistent step; weaker C11 orders are not modelled.
- Locks and threads: each locked operation of an index, store, registry or directory is atomic; lock implementations,
  the interpreter lock and reader-writer locks are not modelled, except where the diagnostic reader and reset exclude
  each other by the interpreter lock.
- Hash functions and checksums: FNV-1a, Adler-32, CRC-32 and the Unicode path identities are arbitrary functions, so
  results hold for every choice; SHA-256 is injective in the two stores and arbitrary in the archive.
- Memory management: reference counting and the key pool are not modelled; an allocation succeeds or fails as a
  parameter says, and keys are byte sequences.
- File system: fsync ordering, permissions, symbolic links and private temporary files are not modelled; the order of
  directory effects is the order in which the code issues them, and no outside process changes the tree.
- Masking by a power of two is written as a remainder, and shifts of unsigned fields as divisions.
- Statistics, telemetry records, identity records and probe-length reports of the handle index.
- JSON text of manifests and metadata: a manifest file is missing, torn or a whole value; node budgets and encoded sizes
  are parameters.
- Generation identifiers: numbers in name order in the generation store; in the segment store the identifier of a commit
  is a parameter.
- GenerationStore.ImmutableGenerationStore.CommitChunks: commits under an arbitrary identifier that names nothing on the
  disk, live or in the trash, where the source builds one from the time and random bits.
- Garbage-collection interference: no other process acts between the two last reference scans and the unlink, so the
  retained and changed branches of the loop are shown dead.
- `recover_current` of the segment store selects outside its lock and is left out; the step rules allow any promotion of
  a verifying generation.
- Immediate cleanup after a commit is the composition of two modelled operations.
- SegmentedMount.CommitMountSegmented: a path that cannot be encoded is found before the commit begins, while the source
  finds it in the middle and leaves an unpromoted generation behind; mount snapshots are reduced to whether they differ.
- ArchiveIo.Materialize: the result is the mount as a map; the temporary directory, its inventory check and its
  promotion are not modelled, and a file that would sit where a directory is needed is an explicit error.
- The recursive writer, the sidecar file, compression and payload decoding of `.tds` files, and reader reload.
- HybridRegistry scores: the exponential decay is an arbitrary function of a record and the time.
- ReadPath.TDSDirectory.WriteEntry: starts from the serialised entry; the sharded entry index is a map.
- Wal.WriteAheadLog.Replay: yields the writes in order instead of calling the directory.
- FileName members start from the list of components; splitting the node path at slashes and the `.tds` suffix are not
  modelled.
- CSV chunk counts, result dictionaries and input buffer acquisition.
- The radix router's step-reporting lookup and path helper.
