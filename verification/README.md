# Verified model of ShibuDB's storage and of the FAISS kernels it searches with

ShibuDB keeps keys and vectors in log-structured files and searches vectors with
FAISS, part of which is header code in the repository. This project models both in
Dafny and proves what they promise. Code that updates arrays or fields in place is
modelled by methods over arrays and by classes; each is proved against functions on
values, and the lemmas say what those functions mean. `dafny verify dfyconfig.toml`
checks everything.

| files | subject |
|---|---|
| `OrderedKeyValue`, `KBest`, `HeapOrder`, `Heap` | the order of results, what "the k best" means, the binary heap over two arrays |
| `ResultCollection`, `ResultHandlers` | single best, heap and reservoir handlers, and the dispatcher by `k` |
| `Bits`, `Fields`, `Bitstring`, `ProductQuantizer`, `PackersAgree`, `CodeDistance` | two independent bit packers, their readers, distances by table lookup |
| `HammingCounter`, `RangeHandler` | counting top-k and the counting sort of range results |
| `Bytes`, `Wal` | little-endian numbers and files, the write-ahead log |
| `BTreeIndex`, `KeyValueStorage` | the index image and the key-value engine |
| `VectorRecords`, `VectorIndex` | the vector data file, the ID-mapped index |
| `VectorShelf`, `VectorLog`, `VectorStorage` | the vector engine as maps, its log, the engine itself |
| `ConnectionManager` | the resizable semaphore of the server |

Three kinds of value stand for the source's: a distance is an `int` that is only
compared (any total order embeds in it), a float payload is the 32-bit word of its bit
pattern, and a file is a sequence of bytes with a cursor. Go's map iteration is an
arbitrary choice in a loop, so the results hold for every order.

## Where the code and what it promises differ

- `BitstringWriter::write` does not mask its argument: a value with bits beyond its
  width spoils the next field (`Bitstring.WriteDoesNotMask`), under exactly the
  condition of `Bitstring.StoredIsLowBits`.
- `heap_heapify` with `0 < k0 < k` leaves an array that need not be a heap
  (`HeapOrder.PaddedHeap` says when it is).
- "Skip already committed transactions" skips nine bytes, not a record
  (`Wal.CommittedEntryIsReadAgain`, `Wal.CommittedEntryInvented`).
- Replaying a torn log is an error, not a prefix, for the tears named in
  `Wal.TornLog`.
- Clearing a log does not move its cursor. An engine that replayed a log and found nothing
  to flush writes its next batch behind zeros, and unless their number is a multiple of
  nine a crash before the commit mark can lose the batch
  (`KeyValueStorage.CursorDecides`, `KeyValueStorage.LogAfterDeletion`).
- A batch is logged over the one before. After a crash before the commit mark the bytes of the
  old log behind it are read too: they can make the log unreadable, and then the batch is lost,
  or bring an old value back in place of a new one (`KeyValueStorage.LeftoverDecides`,
  `KeyValueStorage.ShorterBatchIsLost`, `KeyValueStorage.StaleValueWins`).
- Index positions are stored in 32 bits: a key whose record starts beyond 4 GiB is read from
  another place in the next session (`KeyValueStorage.RereadIsSame`,
  `KeyValueStorage.FarRecordIsLost`).
- Zero padding in the index file loads as an entry for the empty key
  (`BTreeIndex.LoadImage`, `BTreeIndex.Reopened`).
- A deletion does not look at the pending batch, and a flushed `__deleted__` reads as an
  error (`KeyValueStorage.Store`).
- A removed vector that is still queued for the file becomes readable again with the
  next flush (`VectorShelf.RemovedComesBack`). After rows were appended behind a torn
  row, the offset table of the next session is not that of this one
  (`VectorStorage.RebuiltIsSame`).
- The vector engine's log is marked but not emptied by a clean close, and what the mark
  leaves is read again. After one insertion into an empty log the engine cannot be opened
  again just when the bytes of the id and the vector are `Blocked` (and no vector of another
  length is read from them first); with `lo` and `hi` the
  halves of the id as an unsigned 64-bit number, `lo` not 8 and a first byte other than the
  commit flag, that is when `lo + hi < 4 * dim` or `lo + 1 = 4 * dim`: for id 3 and any
  dimension, and for id `0x1_0000_000F` and dimension 4 (`VectorLog.CommittedInsertion`,
  `VectorStorage.InsertThenReopen`). After one removal it never can, and a second insertion
  repairs the log (`VectorLog.RefusedAfter`, `VectorLog.ReopeningAfter`).
- Emptying that log after a replay keeps its cursor too: an engine that recovered anything and
  then takes one insertion or removal cannot be opened again (`VectorStorage.RecoverThenReopen`).
- A vector stored under id -1 lets the padding of a search pass as results
  (`VectorIndex.PaddingIsReturned`).
- A connection limit is checked when it is requested and applied later; in between it
  can become too low, and then the limit is exceeded and a release waits
  (`ConnectionManager.LateUpdate`).

## Model

| member | source | states |
|---|---|---|
| `OrderedKeyValue.C.StrictTotalOrder` | resources/lib/include/faiss/utils/ordered_key_value.h:42-84 | `cmp2` is a strict total order that refines `cmp`: irreflexive, total, asymmetric, transitive; what all heap code relies on |
| `HeapOrder.RootIsWorst` | resources/lib/include/faiss/utils/Heap.h:38-77 | the root of a heap is worst among all entries, under `cmp2` and under `cmp` |
| `HeapOrder.SiftDownIsHeap` | resources/lib/include/faiss/utils/Heap.h:53-76 | moving a hole down past worse children and dropping an entry in restores the heap order |
| `HeapOrder.SiftUpIsHeap` | resources/lib/include/faiss/utils/Heap.h:91-103 | moving a hole up past better fathers restores the heap order |
| `HeapOrder.PopCorrect` | resources/lib/include/faiss/utils/Heap.h:47-77 | popping leaves a heap that lost exactly one copy of the root |
| `HeapOrder.PushCorrect` | resources/lib/include/faiss/utils/Heap.h:83-104 | pushing leaves a heap that gained exactly the new entry |
| `HeapOrder.ReplaceTopCorrect` | resources/lib/include/faiss/utils/Heap.h:112-150 | replacing the root leaves a heap with the root exchanged for the new entry and nothing else |
| `Heap.MoveHoleDown` | resources/lib/include/faiss/utils/Heap.h:53-76 | the shared loop of pop and replace-top ends where the recursive sift-down ends; it never writes the last slot |
| `Heap.HeapPop` | resources/lib/include/faiss/utils/Heap.h:47-77 | in place: slots `lo..lo+k-1` become a heap of the old entries minus the root; no other slot is written |
| `Heap.HeapPush` | resources/lib/include/faiss/utils/Heap.h:83-104 | in place: slots `lo..lo+k` become a heap of the old entries plus the new one; no other slot is written |
| `Heap.HeapReplaceTop` | resources/lib/include/faiss/utils/Heap.h:112-150 | in place: a heap of the old entries with the root exchanged; no other slot is written |
| `HeapOrder.PaddedHeap` | resources/lib/include/faiss/utils/Heap.h:316-338 | a heap filled up with neutral entries is a heap if and only if no father of one of them beats the neutral entry |
| `HeapOrder.PadsFitWhenAlone` | resources/lib/include/faiss/utils/Heap.h:316-338 | which is so when one of the two parts is empty, and never otherwise when every entry beats the neutral one |
| `HeapOrder.InOrderIs` | resources/lib/include/faiss/utils/ordered_key_value.h:42-84 | what the order of reordered entries is, in numbers: distances descending and then labels descending for similarities, both ascending for distances |
| `Heap.HeapHeapify` | resources/lib/include/faiss/utils/Heap.h:316-338 | the first `k0` slots are a heap of the first `k0` inputs, the rest neutral; the whole is a heap exactly when no father of a neutral slot beats the neutral entry, so for `k0 = 0` and `k0 = k` |
| `Heap.HeapHeapifyInPlace` | resources/lib/include/faiss/utils/Heap.h:312-338 | the same when the inputs are the slots of the heap themselves, with or without their labels |
| `Heap.HeapOffer` | resources/lib/include/faiss/utils/Heap.h:376-387 | one input replaces the root if the root is worse; the heap goes on tracking the best of everything seen |
| `Heap.HeapAddn` | resources/lib/include/faiss/utils/Heap.h:366-388 | after any stream the heap is still a heap and holds exactly a best part of the initial entries and all inputs, every held pair having been there or been added |
| `KBest.TracksReplace` | resources/lib/include/faiss/utils/Heap.h:376-387 | replacing the worst held entry by a better newcomer keeps a best part |
| `KBest.TracksIgnore` | resources/lib/include/faiss/utils/Heap.h:376-387 | ignoring a newcomer that does not beat the worst held entry keeps a best part |
| `HeapOrder.ReorderStep` | resources/lib/include/faiss/utils/Heap.h:427-438 | one round keeps: live entries taken out so far are in order, none worse than what is left, none lost |
| `Heap.PutBehind` | resources/lib/include/faiss/utils/Heap.h:433-435 | the write lands in front of the entries taken out and behind the heap that is left, both of which it leaves alone |
| `Heap.ReorderRound` | resources/lib/include/faiss/utils/Heap.h:427-438 | the popped root goes to a slot behind the heap that is left, so that heap is untouched |
| `Heap.HeapReorder` | resources/lib/include/faiss/utils/Heap.h:420-450 | returns the number of entries with label other than -1; those entries come first, as a multiset unchanged and best first; the rest of the slots are neutral |
| `Heap.MoveToFront` | resources/lib/include/faiss/utils/Heap.h:442-443 | the two `memmove` calls bring the last `nel` slots to the front |
| `KBest.IsBestUnique` | resources/lib/include/faiss/impl/ResultHandler.h:70-80 | there is only one best part of a given size, so all handlers must agree on distances |
| `KBest.KBestIs` | resources/lib/include/faiss/impl/ResultHandler.h:70-80 | the reference answer (sort, take `k`) is the only sorted best part of size `k` |
| `ResultCollection.AnswerParts` | resources/lib/include/faiss/impl/ResultHandler.h:70-80 | what an answer is, entry by entry, duplicates counted: in order, taken from the results, nothing left out better |
| `ResultCollection.AnswerFront` | resources/lib/include/faiss/impl/ResultHandler.h:70-80 | and with only results better than an empty slot, exactly as many slots as there is room for hold one |
| `ResultCollection.ReorderedIsAnswer` | resources/lib/include/faiss/impl/ResultHandler.h:244-246 | a tracking heap, reordered, is the `k` best in order, padded with (neutral, -1), every entry one that was added with its distance |
| `ResultHandlers.Top1Handler.Begin` | resources/lib/include/faiss/impl/ResultHandler.h:119-123 | a fresh query tracks nothing but the empty slot |
| `ResultHandlers.Top1Handler.AddResult` | resources/lib/include/faiss/impl/ResultHandler.h:126-133 | takes a strictly better result with its label, so the first of equals stays; keeps the best entry of all added |
| `ResultHandlers.Top1Handler.End` | resources/lib/include/faiss/impl/ResultHandler.h:136-139 | writes the answer for `k = 1`, label included, to the slot of the query and nowhere else |
| `ResultHandlers.HeapHandler.Begin` | resources/lib/include/faiss/impl/ResultHandler.h:226-231 | the `k` slots of the query become a heap of empty slots |
| `ResultHandlers.HeapHandler.AddResult` | resources/lib/include/faiss/impl/ResultHandler.h:234-241 | the slots go on tracking everything added; without an update the threshold is unchanged |
| `ResultHandlers.HeapHandler.End` | resources/lib/include/faiss/impl/ResultHandler.h:244-246 | the slots of the query hold the answer: the `k` best of everything added, best first, padded |
| `ResultHandlers.PartitionFuzzy` | resources/lib/include/faiss/utils/partitioning.h:17-29 | the documented contract of the fuzzy partition, with a body that shows it can be met |
| `ResultCollection.ReservoirShrink` | resources/lib/include/faiss/impl/ResultHandler.h:340-345 | after a fuzzy partition everything thrown away is still covered by `n` stored entries that are not worse |
| `ResultCollection.ReservoirSkip` | resources/lib/include/faiss/impl/ResultHandler.h:320-332 | a result that does not beat the threshold can be left out: this is what makes adding it unnecessary |
| `ResultCollection.ReservoirBest` | resources/lib/include/faiss/impl/ResultHandler.h:352-366 | the best of what is stored is the best of everything that was added |
| `ResultHandlers.ReservoirHandler.constructor` | resources/lib/include/faiss/impl/ResultHandler.h:379-391 | the capacity is `2k` rounded up to a multiple of 16 |
| `ResultHandlers.ReservoirHandler.AddResult` | resources/lib/include/faiss/impl/ResultHandler.h:320-332 | keeps the reservoir invariant: nothing needed for the `n` best is lost, and no slot outside the capacity is written |
| `ResultHandlers.ReservoirHandler.ShrinkFuzzy` | resources/lib/include/faiss/impl/ResultHandler.h:338-345 | leaves at least `n` and at most `(capacity + n) / 2` entries and keeps the invariant |
| `ResultHandlers.ReservoirHandler.ToResult` | resources/lib/include/faiss/impl/ResultHandler.h:352-366 | writes the answer, whether fewer or more than `n` entries are stored |
| `ResultHandlers.FewStoredIsAnswer` | resources/lib/include/faiss/impl/ResultHandler.h:357-360 | with fewer than `n` stored, the reordered entries and empty slots behind them are the answer |
| `ResultHandlers.ManyStoredIsAnswer` | resources/lib/include/faiss/impl/ResultHandler.h:361-365 | with `n` or more stored, streaming the rest through the heap and reordering gives the answer |
| `ResultHandlers.RunTop1` | resources/lib/include/faiss/impl/ResultHandler.h:109-140 | any sequence of results through the single-best handler ends in the answer for `k = 1` |
| `ResultHandlers.RunHeap` | resources/lib/include/faiss/impl/ResultHandler.h:214-247 | any sequence of results through the heap handler ends in the answer |
| `ResultHandlers.RunReservoir` | resources/lib/include/faiss/impl/ResultHandler.h:299-367 | any sequence of results through the reservoir ends in the answer |
| `ResultHandlers.Search` | resources/lib/include/faiss/impl/ResultHandler.h:617-657 | whatever handler is picked by `k`, in terms of `lowest`, `highest`, `<` and `>` only: the slots of the query are in order, nothing left out is better, nothing is worse than an empty slot, and when every result is better than that the first `min(k, n)` slots are results and the others `(lowest or highest, -1)`; no other slot is written |
| `Bits.OrDisjoint` | resources/lib/include/faiss/impl/ProductQuantizer-inl.h:21-38 | or-ing a shifted number onto bits below it is addition |
| `Bits.AndMask` | resources/lib/include/faiss/impl/ProductQuantizer-inl.h:10-19 | and-ing with `2^n - 1` keeps the low `n` bits |
| `Bits.BitByBit` | resources/lib/include/faiss/impl/ProductQuantizer-inl.h:21-38 | every bit of the two bitwise operators, by division |
| `Bits.LEInjective` | resources/lib/include/faiss/utils/hamming-inl.h:11-35 | equal buffers are those with the same little-endian value |
| `Bits.OrIntoByte` | resources/lib/include/faiss/utils/hamming-inl.h:16-27 | or-ing into the current byte of a clean buffer adds the shifted low bits |
| `Bits.NextByteBits` | resources/lib/include/faiss/impl/ProductQuantizer-inl.h:80-92 | or-ing a further byte extends the bits read so far by eight |
| `Fields.PackedAppend` | resources/lib/include/faiss/utils/hamming-inl.h:16-35 | a further field is added on top of the earlier ones |
| `Fields.FieldAt` | resources/lib/include/faiss/utils/hamming-inl.h:40-64 | every field can be cut out of the packed number again |
| `Bitstring.BitstringWriter.constructor` | resources/lib/include/faiss/utils/hamming-inl.h:11-14 | the buffer is zeroed |
| `Bitstring.BitstringWriter.Write` | resources/lib/include/faiss/utils/hamming-inl.h:16-35 | the buffer as a number grows by the stored value shifted to the bit cursor: no earlier bit is disturbed; all accesses are in bounds |
| `Bitstring.StoredIsLowBits` | resources/lib/include/faiss/utils/hamming-inl.h:16-35 | what is stored is the low `nbit` bits exactly when no other bit fits in the byte, or for a longer field is set at all; the low bits always arrive |
| `Bitstring.WriteDoesNotMask` | resources/lib/include/faiss/utils/hamming-inl.h:21-24 | an input for which a neighbouring field is spoiled, because `x` is not masked |
| `Bitstring.BitstringReader.Read` | resources/lib/include/faiss/utils/hamming-inl.h:40-64 | returns bits `i .. i + nbit` of the buffer, for any buffer, within bounds |
| `Bitstring.WriteAll` | resources/lib/include/faiss/utils/hamming-inl.h:11-35 | a buffer of fields of widths 1 to 64 holds the sum of the shifted fields |
| `Bitstring.ReadAll` | resources/lib/include/faiss/utils/hamming-inl.h:37-65 | reads every field at the sum of the widths before it |
| `Bitstring.RoundTrip` | resources/lib/include/faiss/utils/hamming-inl.h:11-65 | any sequence of fields of mixed widths 1 to 64 comes back |
| `ProductQuantizer.PQEncoderGeneric.constructor` | resources/lib/include/faiss/impl/ProductQuantizer-inl.h:10-19 | starting in the middle of a byte keeps the bits below |
| `ProductQuantizer.PQEncoderGeneric.Encode` | resources/lib/include/faiss/impl/ProductQuantizer-inl.h:21-38 | the number taken in grows by the shifted code; exactly the completed bytes are written |
| `ProductQuantizer.PQEncoderGeneric.Flush` | resources/lib/include/faiss/impl/ProductQuantizer-inl.h:40-44 | the bytes then hold everything that was taken in; at most one more byte is written |
| `ProductQuantizer.EncodeAll` | resources/lib/include/faiss/impl/ProductQuantizer-inl.h:10-44 | any codes from any bit offset on: `ceil((offset + M * nbits) / 8)` bytes hold the kept low bits plus the shifted codes, and no other byte is written |
| `ProductQuantizer.PQDecoderGeneric.Decode` | resources/lib/include/faiss/impl/ProductQuantizer-inl.h:72-97 | returns bits `Count() .. Count() + nbits` of the bytes; reads no byte past the one with the last bit |
| `ProductQuantizer.DecodeAll` | resources/lib/include/faiss/impl/ProductQuantizer-inl.h:63-97 | decodes any bytes code by code |
| `ProductQuantizer.CodesInBytes` | resources/lib/include/faiss/impl/ProductQuantizer-inl.h:21-97 | the codes stand in the bytes written for them, whatever follows |
| `ProductQuantizer.RoundTrip` | resources/lib/include/faiss/impl/ProductQuantizer-inl.h:10-97 | decoding what was encoded gives it back for every width 1 to 63, every count and every code below `2^nbits`; only the bytes needed are written |
| `ProductQuantizer.EncodeInTwo` | resources/lib/include/faiss/impl/ProductQuantizer-inl.h:10-44 | a second encoder that resumes in the middle of a byte leaves what one encoder would |
| `PackersAgree.PackBoth` | resources/lib/include/faiss/utils/hamming-inl.h:16-35 | for one width `BitstringWriter` and `PQEncoderGeneric` write the same bytes, those of the sum of the shifted codes |
| `CodeDistance.DistanceSingleCode` | resources/lib/include/faiss/impl/code_distance/code_distance-generic.h:16-38 | the sum of the table entries of the codes in the bytes, table accesses in bounds |
| `CodeDistance.EntryCounts` | resources/lib/include/faiss/impl/code_distance/code_distance-generic.h:28-36 | that sum reads one entry of each row: changing entry `x` of row `m` changes it by as much if code `m` is `x`, and not at all otherwise |
| `CodeDistance.NothingCounts` | resources/lib/include/faiss/impl/code_distance/code_distance-generic.h:28-36 | and a table of zeros gives zero |
| `CodeDistance.DistanceFourCodes` | resources/lib/include/faiss/impl/code_distance/code_distance-generic.h:42-79 | four distances, each the one a single code gets |
| `CodeDistance.DistanceOfEncoded` | resources/lib/include/faiss/impl/code_distance/code_distance-generic.h:16-38 | for bytes that came from the encoder the distance is the sum of the lookups of the encoded codes themselves |
| `HammingCounter.HCounterState.constructor` | resources/lib/include/faiss/utils/hamming-inl.h:85-97 | zeroed counters are a valid start for any `k >= 1` |
| `HammingCounter.HCounterState.UpdateCounter` | resources/lib/include/faiss/utils/hamming-inl.h:99-116 | keeps the invariant over any run: lists below the threshold hold exactly the labels seen there in order of arrival, their total is `count_lt < k`, the list at the threshold holds as many as fit in `k` slots, together at least `k`; every write stays in the `k` slots of its list; lowering terminates |
| `HammingCounter.StoredBelow` | resources/lib/include/faiss/utils/hamming-inl.h:103-105 | storing below the threshold stays in the list of its distance and keeps all other lists |
| `HammingCounter.StoredAt` | resources/lib/include/faiss/utils/hamming-inl.h:111-114 | storing at the threshold while there is room |
| `HammingCounter.NotStored` | resources/lib/include/faiss/utils/hamming-inl.h:102-115 | what is not stored cannot be among the `k` nearest |
| `HammingCounter.LowerStep` | resources/lib/include/faiss/utils/hamming-inl.h:106-110 | one round of lowering keeps the totals right |
| `HammingCounter.ExactTopK` | resources/lib/include/faiss/utils/hamming-inl.h:67-73 | in every reachable state the lists up to the threshold begin with the `min(k, n)` nearest labels, by distance and then by arrival |
| `HammingCounter.IdsAtOrder` | resources/lib/include/faiss/utils/hamming-inl.h:99-116 | the labels of a distance are those seen there, each once and in order of arrival |
| `HammingCounter.ListsInArrays` | resources/lib/include/faiss/utils/hamming-inl.h:99-116 | in every reachable state slots `b * k + i` hold the `i`-th label seen at distance `b`, all of them below the threshold and the first `k` at it |
| `HammingCounter.TopKInArrays` | resources/lib/include/faiss/utils/hamming-inl.h:67-73 | in every reachable state: sort all hits by distance and then by arrival, and each of the first `k` stands in the slots of its distance behind those before it |
| `RangeHandler.OfQueryCount` | resources/lib/include/faiss/impl/simd_result_handlers.h:680-704 | grouping by query loses, repeats and mixes up no triplet |
| `RangeHandler.OfQueryOrder` | resources/lib/include/faiss/impl/simd_result_handlers.h:680-704 | and keeps the order of arrival: the places of the triplets of a query, each once and increasing |
| `RangeHandler.PartialRangeHandler.Handle` | resources/lib/include/faiss/impl/simd_result_handlers.h:583-621 | one triplet with query, label and distance for each lane that is within the radius and selected, lowest lane first, and for no other; the counts follow |
| `RangeHandler.PlaceStep` | resources/lib/include/faiss/impl/simd_result_handlers.h:687-689 | placing one triplet stays inside the part of its query and spoils no other part |
| `RangeHandler.PartialRangeHandler.Shift` | resources/lib/include/faiss/impl/simd_result_handlers.h:671-677 | moves each count one query up |
| `RangeHandler.PartialRangeHandler.SumUp` | resources/lib/include/faiss/impl/simd_result_handlers.h:682-685 | running sums and a shift turn counts into exclusive offsets |
| `RangeHandler.PartialRangeHandler.SortTriplets` | resources/lib/include/faiss/impl/simd_result_handlers.h:681-690 | a stable counting sort: afterwards `lims[q] .. lims[q + 1]` are exactly the triplets of query `q` in order of arrival |
| `RangeHandler.PartialRangeHandler.End` | resources/lib/include/faiss/impl/simd_result_handlers.h:680-704 | every query reports its own triplets, each once, in order of arrival, as `dis / normalizers[2q] + normalizers[2q + 1]` and the label; all accesses in bounds |
| `Wal.ParseAll` | internal/wal/wal.go:88-136 | logged operations are read back in order before whatever follows them |
| `Wal.EncodeLayout` | internal/wal/wal.go:23-68 | the bytes of a logged operation: two lengths, the letter P or D, key and value |
| `Wal.MarkedIs` | internal/wal/wal.go:70-86 | a mark is the letter C at offset 8 and changes no other byte |
| `Wal.ReplayReturnsLogged` | internal/wal/wal.go:23-68 | replaying any mix of entries and deletions returns exactly their keys and values, a deletion with an empty value |
| `Wal.TornLog` | internal/wal/wal.go:100-131 | for every truncation: replay fails exactly for a tear inside a header or right before a non-empty field, and otherwise returns exactly the operations that are still whole |
| `Wal.NothingIsRead` | internal/wal/wal.go:88-136 | replay finds nothing, and no error, in exactly the bytes that are empty, start with a committed header before such bytes, or announce more than there is |
| `Wal.UnreadableIs` | internal/wal/wal.go:88-136 | replay fails on exactly the bytes that end inside a header or right before a field that is not empty, after any records and committed headers (`Unreadable`, a condition on the bytes) |
| `Wal.ParseMarked` | internal/wal/wal.go:70-86 | the cursor after a commit mark and the header replay skips fit together: reading goes on with what was written at offset 9 |
| `Wal.BatchAfterCommit` | internal/wal/wal.go:70-136 | a batch written after a commit mark is read back, followed by what is left of the old log |
| `Wal.BatchAloneAfterCommit` | internal/wal/wal.go:70-136 | exactly the new batch comes back if and only if what is left of the old log is passed over (`Skipped`, a condition on its bytes); so whenever the batch is at least `L - 9` bytes long |
| `Wal.CommittedEntryIsReadAgain` | internal/wal/wal.go:111-113 | only the header of a committed record is skipped: replay goes on in its key and value, and skips the record if and only if their bytes are `Skipped`; short ones are an error |
| `Wal.CommittedEntryInvented` | internal/wal/wal.go:111-113 | a committed record whose key is nine bytes ending in `C` comes back as the entry its value spells, which was never logged |
| `Wal.BehindZeros` | internal/wal/wal.go:88-142 | a log cleared without moving its cursor is written behind zeros, which read as one blank entry per nine bytes |
| `Wal.MisalignedEntry` | internal/wal/wal.go:88-142 | behind any other number of zeros the entry `(a, v)` is never read back |
| `Wal.WAL.WriteEntry` | internal/wal/wal.go:23-47 | the encoded entry is written at the cursor, which moves behind it |
| `Wal.WAL.WriteDelete` | internal/wal/wal.go:49-68 | the encoded deletion is written at the cursor |
| `Wal.WAL.MarkCommitted` | internal/wal/wal.go:70-86 | byte 8 is overwritten and the cursor is 9, whatever the log |
| `Wal.WAL.Clear` | internal/wal/wal.go:138-142 | the file is empty and the cursor stays where it was |
| `Wal.WAL.ReadFull` | internal/wal/wal.go:100-131 | the three outcomes of `io.ReadFull` and where each leaves the cursor |
| `Wal.WAL.Replay` | internal/wal/wal.go:88-136 | the loop computes the parse of the file, error cases included, and does not change the file |
| `Wal.LogAndReplay` | internal/wal/wal.go:23-136 | from an empty log: what is logged is what is replayed |
| `Wal.CommitAndReplay` | internal/wal/wal.go:70-136 | on any log: a mark, a batch and a replay return the batch and then what is left of the old log |
| `BTreeIndex.LoadChain` | internal/index/BTreeIndex.go:60-82 | a chain of entries is loaded entry by entry, before whatever follows |
| `BTreeIndex.LoadImage` | internal/index/BTreeIndex.go:60-82 | loading a chain followed by zeros finds the chain, and one entry for the empty key per eight zero bytes |
| `BTreeIndex.LoadTwice` | internal/index/BTreeIndex.go:60-82 | loading any bytes twice is loading them once |
| `BTreeIndex.LoadEnds` | internal/index/BTreeIndex.go:60-82 | where loading a file that ends early stops: in front of fewer than eight bytes, or behind the header of an entry that is cut off, which is left out |
| `BTreeIndex.ItemLayout` | internal/index/BTreeIndex.go:140-178 | the bytes of an entry: key length, 32 bits of the position, key |
| `BTreeIndex.Index.constructor` | internal/index/BTreeIndex.go:30-58 | an empty file gets 4096 zero bytes; the tree and the write offset are what loading gives; an image that was valid stays valid |
| `BTreeIndex.Index.BatchLoadFromMmap` | internal/index/BTreeIndex.go:60-82 | the loop computes the load function and where it ends, within bounds, for any bytes |
| `BTreeIndex.Index.Add` | internal/index/BTreeIndex.go:84-90 | on any image: the tree maps the key to the position; an image that gives the tree still gives it |
| `BTreeIndex.Index.Get` | internal/index/BTreeIndex.go:92-101 | the position in the tree, if any |
| `BTreeIndex.Index.Remove` | internal/index/BTreeIndex.go:103-112 | on any image: the tree loses the key, and if it had it the image is a new one that gives the tree; an absent key changes nothing |
| `BTreeIndex.Index.PersistIndex` | internal/index/BTreeIndex.go:114-138 | a fresh image holds exactly the tree, positions cut to 32 bits |
| `BTreeIndex.Index.AppendIndexEntry` | internal/index/BTreeIndex.go:140-178 | on any image: the entry stands at the cursor, in an image of twice the length plus the entry plus 4096 bytes when there is no room; a chain of entries followed by zeros becomes the chain with one more entry followed by zeros |
| `BTreeIndex.Index.Grow` | internal/index/BTreeIndex.go:149-162 | a longer mapping keeps all bytes and goes on with zeros |
| `BTreeIndex.Reopened` | internal/index/BTreeIndex.go:30-82 | opening the file again gives the tree on all non-empty keys, positions modulo 2^32; the empty key ends up at position 0 whenever eight bytes of padding are left |
| `BTreeIndex.RunIndex` | internal/index/BTreeIndex.go:30-178 | after any run of additions, removals and reopenings the image is a chain followed by zeros and the tree is the one the run describes |
| `KeyValueStorage.Store.PutIsRead` | internal/storage/key_value_storage.go:145-150 | any value put is read back, the empty one included, and no other key reads differently |
| `KeyValueStorage.Store.FlushIsDurable` | internal/storage/key_value_storage.go:152-227 | what was pending is durable in place of what was there, and nothing is pending |
| `KeyValueStorage.Store.DeleteLeavesOthers` | internal/storage/key_value_storage.go:288-320 | deleting a key changes no other, now or after a flush |
| `KeyValueStorage.Store.FlushIsInvisible` | internal/storage/key_value_storage.go:152-286 | a flush changes what a key reads as if and only if `__deleted__` was pending for it |
| `KeyValueStorage.Store.DeleteMissesPending` | internal/storage/key_value_storage.go:288-320 | after a deletion the key is gone if and only if nothing is pending for it; a pending value comes back with the next flush |
| `KeyValueStorage.ReadWellFormed` | internal/storage/key_value_storage.go:249-286 | a well-formed record reads as its value, and `__deleted__` as an error |
| `KeyValueStorage.RecordValueIs` | internal/storage/key_value_storage.go:249-285 | reading at a position gives a value of the key exactly where a well-formed record of that key and value stands |
| `KeyValueStorage.ReadErrors` | internal/storage/key_value_storage.go:249-285 | which error a read comes to: a file that ends too soon, else another key, else the sentinel |
| `KeyValueStorage.SentinelIs` | internal/storage/key_value_storage.go:277-283 | the sentinel spells `__deleted__` |
| `KeyValueStorage.LookupIsGet` | internal/storage/key_value_storage.go:229-286 | with every index position at a well-formed record of its key, reading answers what the two-layer map answers; the key-mismatch branch is never taken but for keys that were stray when the files were opened |
| `KeyValueStorage.ShibuDB.constructor` | internal/storage/key_value_storage.go:30-65 | opening any data file with any index image gives the map of the well-formed records the index points at, with the entries recovered from the log flushed into it; the log is emptied unless it cannot be read, and its cursor is 9, or its old length if nothing was recovered |
| `KeyValueStorage.ShibuDB.PutBatch` | internal/storage/key_value_storage.go:145-150 | the batch maps the key to the value, whatever it is, and nothing else changes |
| `KeyValueStorage.ShibuDB.FlushBatch` | internal/storage/key_value_storage.go:152-227 | the pending layer moves into the durable one whatever the order of the entries; the log is the batch at the cursor under a commit mark, or empty above 1 MiB |
| `KeyValueStorage.ShibuDB.AppendBatch` | internal/storage/key_value_storage.go:178-211 | appending the records in any order makes the batch durable |
| `KeyValueStorage.ShibuDB.LogBatch` | internal/storage/key_value_storage.go:168-176 | the log gains the entries of the batch, in some order, at the cursor |
| `KeyValueStorage.ShibuDB.AppendRecord` | internal/storage/key_value_storage.go:178-211 | one record is appended and the index points at it |
| `KeyValueStorage.ShibuDB.Get` | internal/storage/key_value_storage.go:229-286 | the two-layer map's answer for every key that is not stray; always what the batch, the index and the bytes give |
| `KeyValueStorage.ShibuDB.Delete` | internal/storage/key_value_storage.go:288-320 | fails exactly when the index lacks the key; else the durable layer loses it, a tombstone goes to the data file and a deletion to the log; the pending layer stays |
| `KeyValueStorage.ShibuDB.ReplayWAL` | internal/storage/key_value_storage.go:104-120 | the logged entries with a value become durable; a log that cannot be read is left as it is |
| `KeyValueStorage.ShibuDB.Close` | internal/storage/key_value_storage.go:322-334 | flushes the pending layer and empties the log |
| `KeyValueStorage.CrashOnEmptiedLog` | internal/storage/key_value_storage.go:152-219 | after a crash between logging and the commit mark on an emptied log, every entry of the batch with a value is recovered if the cursor the log kept is a multiple of nine |
| `KeyValueStorage.CursorDecides` | internal/storage/key_value_storage.go:104-120 | on an emptied log every batch survives such a crash if and only if the cursor is a multiple of nine |
| `KeyValueStorage.LogAfterDeletion` | internal/storage/key_value_storage.go:104-176 | a run in which it is not: an engine that opened a log with one deletion and then crashes after logging a batch has lost the batch |
| `KeyValueStorage.CrashOnMarkedLog` | internal/storage/key_value_storage.go:152-219 | on a marked log exactly the batch and what is recovered from the bytes of the old log behind it are recovered, the latter winning, or nothing if those bytes are `Unreadable` |
| `KeyValueStorage.HarmlessIs` | internal/wal/wal.go:88-136 | replay gets through bytes without finding a value if and only if they are `Harmless`, a condition on the bytes |
| `KeyValueStorage.LeftoverDecides` | internal/storage/key_value_storage.go:104-120 | on a marked log every batch that is logged in a given number of bytes survives such a crash if and only if the bytes of the old log behind it are harmless |
| `KeyValueStorage.ShorterBatchIsLost` | internal/storage/key_value_storage.go:152-219 | inputs for which it is lost: a new value one to eight bytes shorter than the one logged for the key before |
| `KeyValueStorage.StaleValueWins` | internal/storage/key_value_storage.go:152-219 | inputs for which the old value of the key comes back instead of the new one: the entry logged before it is as long as the new one |
| `KeyValueStorage.ReopenedKey` | internal/index/BTreeIndex.go:60-82 | after opening the files again a key reads as the record at its position modulo 2^32, for files of any size |
| `KeyValueStorage.RereadIsSame` | internal/storage/key_value_storage.go:229-286 | so a flushed key keeps its value if and only if its record, or a copy of it, stands there; for one if it starts below 4 GiB |
| `KeyValueStorage.FarRecordIsLost` | internal/index/BTreeIndex.go:140-178 | a file in which a key is fine until the engine is closed and then is a key mismatch |
| `KeyValueStorage.CloseAndReopen` | internal/storage/key_value_storage.go:30-65 | closing and opening again, files of any size: the map is that of the records the image points at; if the image is a chain of entries followed by zeros, every non-empty key reads as its record at the cut position, so as if the batch had just been flushed if the record starts below 4 GiB; the log contributes nothing |
| `KeyValueStorage.StrayKeysVanish` | internal/storage/key_value_storage.go:145-320 | keys without a record of theirs only ever become fewer |
| `KeyValueStorage.LastPutIsRead` | internal/storage/key_value_storage.go:145-286 | in any run a key reads as the value it was last put with, unless deleted since; only `__deleted__` becomes an error, with the first flush |
| `KeyValueStorage.DeletedIsGone` | internal/storage/key_value_storage.go:288-320 | and a key deleted with nothing pending for it is not found until it is put again |
| `KeyValueStorage.Execute` | internal/storage/key_value_storage.go:145-320 | every run of Put, Flush, Delete and Get, empty key included, answers what the two-layer map answers, but for reads of stray keys; so a read answers the last value put, if the key was not deleted since |
| `VectorRecords.IdRoundTrip` | internal/storage/vector_storage.go:504-514 | an id written as eight bytes reads back, negative ids included |
| `VectorRecords.VectorRoundTrip` | internal/storage/vector_storage.go:617-634 | float bytes read back as the same words |
| `VectorRecords.BytesRoundTrip` | internal/storage/vector_storage.go:617-634 | and any bytes whose number is a multiple of four are the bytes of what they read as |
| `VectorRecords.RowInFile` | internal/storage/vector_storage.go:504-520 | row `i` stands at offset `i * (8 + 4 * dim)` |
| `VectorRecords.OffsetIsLast` | internal/storage/vector_storage.go:522-552 | the table holds the last row of each id |
| `VectorRecords.ReadLatest` | internal/storage/vector_storage.go:327-341 | reading at the offset of an id gives its latest vector bit for bit, whatever surrounds the rows |
| `VectorRecords.WholeRowsUnique` | internal/storage/vector_storage.go:522-552 | a file determines its whole rows and its torn tail |
| `VectorStorage.RebuildOffsets` | internal/storage/vector_storage.go:522-552 | on any file: the last offset of each id among the whole rows; a torn last row is ignored |
| `VectorStorage.RebuiltIsSame` | internal/storage/vector_storage.go:504-552 | without removals the table of the session is what rebuilding computes if and only if no row was appended behind a torn one |
| `VectorStorage.RebuildAfterSession` | internal/storage/vector_storage.go:504-552 | the same, for an engine from which nothing was removed, as after any session without removals (`Execute`) |
| `VectorIndex.DroppedIsRemoved` | internal/storage/vector_storage.go:189-193 | removing an id from the index keeps all other ids and their vectors |
| `VectorIndex.IdMapIndex.Search` | resources/lib/include/faiss/Index.h:131-148 | the documented search contract: the best rows by their distances from the query, in order, padded with -1 |
| `VectorIndex.FilteredSearch` | internal/storage/vector_storage.go:247-267 | filtering the best `2k` gives the best of the tracked entries if and only if -1 is not tracked, or there are `2k` entries or `k` tracked ones; and then `min(k, tracked)` of them whenever `untracked + min(k, tracked) <= 2k` |
| `VectorIndex.TooManyUntracked` | internal/storage/vector_storage.go:247-267 | that bound is sharp, however few entries are tracked: whenever it fails and the untracked entries come first, fewer results are left |
| `VectorIndex.BestPlaces` | internal/storage/vector_storage.go:247-267 | the best tracked hits, hit by hit: each stands for a hit of its own, and no tracked hit left out is nearer |
| `VectorIndex.PaddingIsReturned` | internal/storage/vector_storage.go:247-267 | otherwise padding is returned behind all the tracked entries |
| `VectorStorage.VectorEngine.constructor` | internal/storage/vector_storage.go:62-127 | before the log is replayed: the readable vectors are the latest of the whole rows of the file, for any file |
| `VectorStorage.NewVectorEngine` | internal/storage/vector_storage.go:62-127 | for any data file and any log: opening fails exactly when replaying does, and otherwise the commands of the log have been run on what the files hold |
| `VectorStorage.VectorEngine.ReplayWAL` | internal/storage/vector_storage.go:453-502 | for any log: runs its commands in order and empties it if there were any, keeping the cursor; or fails on an unreadable log, a key of another length than eight, or a value that is no vector; or comes across a vector of another length first |
| `VectorLog.OutcomeOfBytes` | internal/storage/vector_storage.go:453-502 | three exact conditions on the bytes of any log (`Blocked`, `HoldsOther`): replaying fails, comes across a vector of another length, or repeats commands |
| `VectorLog.NextCommand` | internal/storage/vector_storage.go:156-180 | a command logged behind a mark, crash or not: opening repeats it and then does what the bytes of the old log behind it say |
| `VectorLog.FirstCommand` | internal/storage/vector_storage.go:156-180 | a first command on an empty log: after a crash before its mark opening repeats exactly it; once it is marked its key and value are read as records instead |
| `VectorLog.CommittedInsertion` | internal/storage/vector_storage.go:453-502 | so after a first insertion the two halves `lo`, `hi` of the id as an unsigned number pass for two lengths: for any id with `lo != 8` and any vector not starting with the commit flag, opening fails if and only if `lo + hi < 4 * dim` or `lo + 1 = 4 * dim` |
| `VectorLog.RepeatedIsLong` | internal/storage/vector_storage.go:453-502 | a log that repeats anything has at least 17 bytes, so its cursor is at least there when it is emptied |
| `VectorLog.BehindZerosRefuses` | internal/storage/vector_storage.go:494-501 | and behind a cursor kept there the next command makes opening fail, marked or not, whatever it is |
| `VectorLog.SessionHolds` | internal/storage/vector_storage.go:156-363 | what every session from an empty log leaves in it, described by its last commands (`TraceOf`) |
| `VectorLog.ReopeningAfter` | internal/storage/vector_storage.go:62-127 | so how opening ends after any session: nothing is repeated after none, the bytes of a first command decide, a later insertion is repeated, a later removal is repeated with what the vector bytes behind it read as |
| `VectorLog.RefusedAfter` | internal/storage/vector_storage.go:62-127 | after any session opening fails if and only if its only command was a removal, or an insertion whose bytes are blocked, or its last was a removal with blocked vector bytes behind it |
| `VectorStorage.InsertThenReopen` | internal/storage/vector_storage.go:62-127 | the same for an engine that takes one insertion, is closed and opened: both the condition on bytes, for every id and vector, and the closed form |
| `VectorStorage.RunThenReopen` | internal/storage/vector_storage.go:62-127 | and for an engine that runs any session: whether it opens again, and with which vectors where |
| `VectorStorage.RecoverThenReopen` | internal/storage/vector_storage.go:453-502 | an engine that repeated anything from its log when it was opened, took one insertion or removal and was closed cannot be opened again |
| `VectorStorage.VectorEngine.InsertVector` | internal/storage/vector_storage.go:156-180 | refuses a vector of the wrong length and changes nothing; else logs it, stages or queues it (the index is trained just when there are enough samples) and marks the log |
| `VectorStorage.VectorEngine.RemoveVector` | internal/storage/vector_storage.go:343-363 | logs an entry without a value, removes the vector and marks the log |
| `VectorStorage.VectorEngine.InsertAfterWAL` | internal/storage/vector_storage.go:182-237 | trained: replaces the vector in the index and queues it; untrained: stages it, and crossing the threshold moves everything staged into the index and the queue and empties both pools |
| `VectorStorage.VectorEngine.Ingest` | internal/storage/vector_storage.go:189-201 | a trained index gets the vector in place of an older one of the id, and the vector is queued |
| `VectorStorage.VectorEngine.Stage` | internal/storage/vector_storage.go:203-236 | an untrained engine stages the vector as one more sample and leaves index and queue alone; it trains and moves everything exactly when there are `nTrain` samples |
| `VectorStorage.VectorEngine.MoveStaged` | internal/storage/vector_storage.go:208-234 | with at least `nTrain` samples: the index then holds exactly the staged vectors, each id once, and all are queued |
| `VectorStorage.VectorEngine.RemoveAfterWAL` | internal/storage/vector_storage.go:366-392 | staging, offset table and, where supported, the index lose the id; the queue and the file stay |
| `VectorStorage.VectorEngine.EnqueuePersist` | internal/storage/vector_storage.go:556-571 | the queue gains one row |
| `VectorStorage.VectorEngine.AppendToDataFile` | internal/storage/vector_storage.go:504-520 | one row is appended and the table points at it |
| `VectorStorage.VectorEngine.FlushData` | internal/storage/vector_storage.go:589-615 | the queue is appended in order, last vector of an id winning, and is empty |
| `VectorStorage.VectorEngine.GetVectorByID` | internal/storage/vector_storage.go:327-341 | the latest vector written for the id, bit for bit, or not found; the read never fails |
| `VectorStorage.VectorEngine.SearchTopK` | internal/storage/vector_storage.go:239-268 | at most `k` tracked ids.  Over the rows of the index: if no vector has id -1, or there are `2k` rows or `k` tracked ones, each result is the id and the distance of a tracked row of its own, they are best first, no tracked row left out is nearer, and there are `min(k, tracked)` of them when `untracked + min(k, tracked) <= 2k`; else they are not the best tracked entries |
| `VectorStorage.IndexedOnce` | internal/storage/vector_storage.go:189-200 | in an index that supports removal each indexed id is there once, with its latest vector |
| `VectorShelf.RunKeepsPlaced` | internal/storage/vector_storage.go:182-237 | in every run each accepted id that was not removed is staged or indexed, never both, with its latest vector; while untrained `staged <= samples < required` |
| `VectorShelf.TrainedWhenEnough` | internal/storage/vector_storage.go:203-208 | in every run the index is trained if and only if there were `nTrain` accepted insertions, counting those before; until then each is a sample and no vector gets into the index, the queue or the file |
| `VectorShelf.LastInsertIsKept` | internal/storage/vector_storage.go:182-237 | in every run the last accepted vector of an id, not removed since, is staged while untrained, and queued or in the file from then on |
| `VectorShelf.LastInsertIsRead` | internal/storage/vector_storage.go:327-341 | and it reads back at any time after a flush behind the training |
| `VectorShelf.RemoveTakesOne` | internal/storage/vector_storage.go:366-392 | a removal takes the id from staging, offset table and a removable index, leaves the queue, and changes no other id |
| `VectorShelf.RunKeepsSafe` | internal/storage/vector_storage.go:182-237 | in every run each accepted id that was not removed is staged, queued or in the file with its latest vector |
| `VectorShelf.AcceptedIsFound` | internal/storage/vector_storage.go:327-341 | once trained, everything accepted and not removed reads back bit for bit after a flush |
| `VectorShelf.RemovedComesBack` | internal/storage/vector_storage.go:366-392 | a removed id becomes readable again with the next flush if and only if a vector of it was queued |
| `VectorStorage.CloseAndReopen` | internal/storage/vector_storage.go:394-414 | closing and opening again with the log the engine has: whether it opens is decided by that log, and then its commands are run on what the files hold; without rows behind a torn one every readable vector is in the files, staged vectors are gone and removed ids with rows in the file are back |
| `VectorStorage.Execute` | internal/storage/vector_storage.go:156-414 | every run of inserts, removals, flushes and reads answers what the maps answer and leaves in the log what its logged commands leave; the index is trained if and only if there were enough accepted insertions; without removals the offset table stays complete |
| `VectorStorage.InsertFlushRead` | internal/storage/vector_storage.go:156-341 | for the engine: in any run a vector accepted, then flushed with a trained index, reads back bit for bit until its id is inserted again or removed |
| `ConnectionManager.RunIsSound` | cmd/server/server.go:63-140 | in every run `0 <= permits <= min(active, limit)`, no update above ten waits, and `active` stays within 32 bits |
| `ConnectionManager.ActiveIsBalance` | cmd/server/server.go:115-140 | in every run the open connections are those at the start plus the grants minus the releases |
| `ConnectionManager.LimitsInOrder` | cmd/server/server.go:50-113 | in every run limits are applied in the order of the accepted requests, none left out, at most one for each attempt |
| `ConnectionManager.UnbackedIsShortfall` | cmd/server/server.go:63-93 | in every run `active - permits` is exactly how far the last applied limit fell short of the connections open at that moment |
| `ConnectionManager.UnbackedMatters` | cmd/server/server.go:115-140 | a release of an open connection waits if and only if only connections without a permit are left; a connection is let in if and only if fewer are open than the limit plus those |
| `ConnectionManager.BackedWhileLimitsFit` | cmd/server/server.go:63-140 | all along a run every connection has its permit if and only if every limit is at least the open connections when it is applied |
| `ConnectionManager.FitIsBacked` | cmd/server/server.go:95-140 | a step keeps every connection backed by a permit and every waiting limit sufficient if and only if it lets in no connection past a waiting limit |
| `ConnectionManager.GuardedLimitsFit` | cmd/server/server.go:95-140 | for that it is enough to let in no connection past a waiting limit |
| `ConnectionManager.FittingRunKeepsLimit` | cmd/server/server.go:63-140 | such runs keep `permits = active <= limit`, accept exactly below the limit, and no release of an open connection waits |
| `ConnectionManager.LateUpdate` | cmd/server/server.go:63-140 | a run in which the check of a request is overtaken: the limit is exceeded and a release of an open connection waits |
| `ConnectionManager.ConnectionManager.constructor` | cmd/server/server.go:36-48 | no connection, no permit, no update |
| `ConnectionManager.ConnectionManager.TryAcquire` | cmd/server/server.go:116-130 | succeeds exactly while the semaphore has room |
| `ConnectionManager.ConnectionManager.Release` | cmd/server/server.go:132-140 | gives a permit back, or waits when there is none |
| `ConnectionManager.ConnectionManager.UpdateLimit` | cmd/server/server.go:96-113 | refuses a limit that is not positive, then one below the open connections (an equal one is accepted), then any while ten wait; else the update is queued behind the others |
| `ConnectionManager.ConnectionManager.ApplyNextUpdate` | cmd/server/server.go:51-60 | the oldest update is applied |
| `ConnectionManager.ConnectionManager.ApplyLimit` | cmd/server/server.go:64-93 | the new semaphore holds `min(active, newLimit)` permits, although the `break` does not leave the loop |
| `ConnectionManager.Execute` | cmd/server/server.go:63-140 | every run of the operations answers what the counts say |

## Left out

- FAISS code that is only declared in the repository (k-means, HNSW, IVF, the body of
  `partition_fuzzy`): its documented contract is used, met by a stand-in body
  (`ResultHandlers.PartitionFuzzy`, `VectorIndex.IdMapIndex`); training, adding and removing
  always succeed, and searching an index that is not trained yet finds nothing.
- NaN, infinities and rounding: distances are a total order, table sums are real numbers.
- The std::pair and indirect heaps of `Heap.h` and the handlers' `add_results` for blocks
  of queries: the same algorithms again.
- SIMD: the 32 lanes of a range handler are sequences of flags, labels and distances;
  `RangeHandler::end` and the merge of partial results are not modelled.
- Aliasing of `x` with other slots of the heap in `heap_heapify`, and with the heap in
  `heap_addn`.
- Keys and values of 4 GiB or more: their length would be cut to 32 bits.
- KeyValueStorage.CloseAndReopen: every engine leaves an index image that is a chain of entries
  followed by zeros; for one that was opened with any other image it does not say what the image
  holds after further entries were written behind it.
- KeyValueStorage.LeftoverDecides: batches with a value, of less than 4 GiB.
- KeyValueStorage.CrashOnMarkedLog: covers a log that was marked and then got deletions and one
  batch; and `KeyValueStorage.CrashOnEmptiedLog` one that was emptied. A log that could not be
  read is left alone, and what is written behind it is not covered.
- Errors of the operating system, `msync`, `fsync` and partial writes.
- VectorStorage.NewVectorEngine: a log can hand FAISS a vector of another length than the index
  takes, which the code does not check; when that happens is stated, what follows is not.
- VectorLog.ReopeningAfter: sessions from an empty log, and dimensions above zero; sessions on any
  other log are covered command by command (`VectorLog.NextCommand`).
- The vector engine's index file; `RangeSearch`; `requiredTrainCount`, a case distinction on the
  name of the index type, is a parameter; the signal that wakes the background flusher is not
  modelled, since a flush may happen at any step.
- VectorStorage.CloseAndReopen: for rows written behind a torn one it says only that the rows
  found are the whole rows of the file.
- Locks and goroutines: every operation is one atomic step, background work is a step that
  may happen anywhere. `TryAcquire` and `Release` each touch the channel and the counter in
  one step, and the map of connections is not modelled. `FlushBatch` is one step too, although the
  source empties the batch before it takes the lock for writing.
- SQL-like queries, spaces, users, HTTP management, configuration files and the command line:
  input, output and plumbing.
