# RocksDB core pieces in Dafny

This project models a set of RocksDB components and proves properties of
them. The centre is the range-tombstone fragmenter; the other pieces are
small helpers around it.

- **Fragmented range-tombstone list** (`range_tombstone_list.dfy`,
  `tombstone_spec.dfy`). The list turns a stream of possibly overlapping
  range tombstones `[start, end)@seq` into non-overlapping fragments. Each
  fragment owns a descending slice of a flat sequence-number vector. The
  central invariant is stated in the list's `Valid`: at every user key, the
  fragments report exactly the sequence numbers of the input tombstones
  covering that key. For a read this is all of them. For a compaction it is
  the newest of each snapshot stripe. The list hands the iterator it read
  to its own PinnedIteratorsManager, because the fragments point into it.
- **Fragmented range-tombstone iterator** (`tombstone_iterator.dfy`). A
  cursor over a fragment list with a visibility window
  `[lowerBound, upperBound]`. It offers the per-seqnum moves and the "top"
  moves, `MaxCoveringTombstoneSeqnum` and `SplitBySnapshot`.
- **VectorIterator** (`vector_iterator.dfy`). An iterator over a key vector
  and a value vector, optionally ordered through a sorted index vector.
- **PinnedIteratorsManager** (`pinned_iterators_manager.dfy`). Collects
  pointers with their release functions and calls each distinct
  (pointer, release function) pair once.
- **Max merge operator** (`max_operator.dfy`). Keeps the byte-wise largest
  operand.
- **Cuckoo table reader** (`cuckoo_table_reader.dfy`). It checks the
  table's properties when it opens, looks keys up by probing hash blocks,
  and iterates over the non-empty buckets in user-key order.
- **Thread status** (`thread_status_impl.dfy`,
  `thread_status_updater.dfy`). Covers the name lookups, the
  interpretation of operation properties, the per-thread status records and
  the column-family registry.
- **MockSystemClock** (`mock_time_env.dfy`). A clock whose time moves only
  when set, slept on or waited on.
- **Java enums and WriteEntry** (`compression_type.dfy`,
  `write_entry.dfy`). `CompressionType` with its three lookups, and
  `WBWIRocksIterator.WriteType.fromId` and `WriteEntry.equals`.

Generic pieces the components share:

- `bytes.dfy`: `Slice::compare`, memcmp order with the shorter prefix first.
- `sorting.dfy`: `std::sort`, written as an insertion sort.
- `search.dfy`: `std::lower_bound` and `std::upper_bound` as one
  partition-point search, plus a first-match scan.
- `dbformat.dfy`: internal keys.
- `wrappers.dfy`: `Option` and `Result`.

## Model

| member | source | states |
|---|---|---|
| ByteStrings.Compare | utilities/merge_operators/max.cc:26 | Slice comparison returns -1, 0 or 1 |
| ByteStrings.CompareZero | utilities/merge_operators/max.cc:26 | comparison is 0 exactly when the byte strings are equal |
| ByteStrings.CompareAntisymmetric | utilities/merge_operators/max.cc:26 | swapping the operands negates the comparison |
| ByteStrings.CompareTransitive | utilities/merge_operators/max.cc:26 | at-most comparisons chain |
| ByteStrings.LessEqTotalPreorder | utilities/merge_operators/max.cc:25-29 | byte-wise order is total and transitive, so a running maximum is well defined |
| ByteStrings.EmptyIsLeast | utilities/merge_operators/max.cc:50-55 | the empty slice that PartialMergeMulti starts from is below every non-empty operand |
| MaxOperator.MaxFold | utilities/merge_operators/max.cc:25-29 | the running maximum is the start value or one of the operands |
| MaxOperator.MaxFoldIsUpperBound | utilities/merge_operators/max.cc:25-29 | the running maximum is at least the start value and every operand |
| MaxOperator.MaxFoldIsMaximum | utilities/merge_operators/max.cc:25-29 | any candidate that is one of the inputs and bounds them all is the fold's result |
| MaxOperator.MaxFoldStep | utilities/merge_operators/max.cc:26-28 | one loop step replaces the maximum only when it compares below the operand |
| MaxOperator.FullMergeV2 | utilities/merge_operators/max.cc:15-32 | starts from the existing value, else the existing operand, else the empty slice; returns the maximum over the operand list; always succeeds |
| MaxOperator.PartialMerge | utilities/merge_operators/max.cc:34-44 | the left operand when it is at least the right one, otherwise the right; the result bounds both |
| MaxOperator.PartialMergeMulti | utilities/merge_operators/max.cc:46-59 | the maximum operand, or empty for an empty list; bounds every operand |
| MaxOperator.PartialMergeAgreesWithMulti | utilities/merge_operators/max.cc:34-59 | merging two operands pairwise or through the list version gives the same value |
| Sorting.SortBy | util/vector_iterator.h:32 | the sort keeps length and multiset of elements |
| Sorting.SortBySorted | db/range_tombstone_fragmenter.cc:149-150 | under a total preorder the sort result is ordered |
| Sorting.SortBySameElements | util/vector_iterator.h:32 | the sorted sequence holds exactly the input's elements |
| Search.FirstTrue | util/vector_iterator.h:45 | the first position whose element satisfies the predicate, with none before it |
| Search.FirstTrueSplits | util/vector_iterator.h:45 | on a partitioned sequence every element from the first true one on satisfies the predicate |
| Search.PartitionPoint | db/range_tombstone_fragmenter.cc:172-173 | binary search: every element before the result fails the predicate and every element from it on satisfies it |
| Search.FirstTrueUnique | util/vector_iterator.h:45-57 | a split position with those two properties is the first true position |
| Search.FindFirst | java/src/main/java/org/rocksdb/CompressionType.java:62-66 | the element at FirstTrue: it satisfies the test and no earlier element does; None exactly when no element does |
| CompressionTypes.AllValues | java/src/main/java/org/rocksdb/CompressionType.java:16-25 | every constant is listed by values() |
| CompressionTypes.GetValue | java/src/main/java/org/rocksdb/CompressionType.java:98-100 | the byte value lies in 0x0..0x7 or is 0x7F, and 0x7F belongs to DISABLE_COMPRESSION_OPTION alone |
| CompressionTypes.GetLibraryName | java/src/main/java/org/rocksdb/CompressionType.java:108-110 | null exactly for NO_COMPRESSION and DISABLE_COMPRESSION_OPTION |
| CompressionTypes.InternalName | java/src/main/java/org/rocksdb/CompressionType.java:17-25 | the name of the C++ enumerator, starting with `k` |
| CompressionTypes.ValuesDistinct | java/src/main/java/org/rocksdb/CompressionType.java:17-25 | the byte values 0x0..0x7 and 0x7F identify the constant |
| CompressionTypes.GetCompressionTypeByValue | java/src/main/java/org/rocksdb/CompressionType.java:61-70 | a found constant has that byte value; a failure means no constant has it |
| CompressionTypes.ValueRoundTrip | java/src/main/java/org/rocksdb/CompressionType.java:61-70 | looking up getValue() of a constant returns the constant |
| CompressionTypes.ValueLookupFails | java/src/main/java/org/rocksdb/CompressionType.java:61-70 | the lookup throws exactly for bytes outside 0x0..0x7 and 0x7F |
| CompressionTypes.GetCompressionTypeByLibrary | java/src/main/java/org/rocksdb/CompressionType.java:38-48 | null gives NO_COMPRESSION; any other result has that library name |
| CompressionTypes.UnknownLibrary | java/src/main/java/org/rocksdb/CompressionType.java:38-48 | a name no constant carries gives NO_COMPRESSION |
| CompressionTypes.LibraryNameRoundTrip | java/src/main/java/org/rocksdb/CompressionType.java:38-48 | every constant with a library name is found by it |
| CompressionTypes.GetFromInternal | java/src/main/java/org/rocksdb/CompressionType.java:82-91 | a found constant has that internal name; a failure means no constant has it |
| CompressionTypes.InternalNameInjective | java/src/main/java/org/rocksdb/CompressionType.java:17-25 | two constants with the same internal name are the same constant |
| CompressionTypes.InternalNameRoundTrip | java/src/main/java/org/rocksdb/CompressionType.java:82-91 | looking up a constant's internal name returns the constant |
| WriteBatchEntries.IdsInDeclarationOrder | java/src/main/java/org/rocksdb/WBWIRocksIterator.java:129-141 | the seven ids are 0x0..0x6, each the constant's position in values() |
| WriteBatchEntries.Id | java/src/main/java/org/rocksdb/WBWIRocksIterator.java:130-141 | every id lies in 0x0..0x6 |
| WriteBatchEntries.FromId | java/src/main/java/org/rocksdb/WBWIRocksIterator.java:143-150 | a found constant has that id; a failure means no constant has it |
| WriteBatchEntries.FromIdRoundTrip | java/src/main/java/org/rocksdb/WBWIRocksIterator.java:143-150 | fromId of a constant's id returns the constant |
| WriteBatchEntries.FromIdAccepts | java/src/main/java/org/rocksdb/WBWIRocksIterator.java:143-150 | fromId succeeds exactly for ids 0 to 6 |
| WriteBatchEntries.WriteEntry.Empty | java/src/main/java/org/rocksdb/WBWIRocksIterator.java:180-183 | the private constructor leaves the type null and both slices empty |
| WriteBatchEntries.WriteEntry.constructor | java/src/main/java/org/rocksdb/WBWIRocksIterator.java:185-190 | the public constructor stores type, key and value |
| WriteBatchEntries.WriteEntry.Equals | java/src/main/java/org/rocksdb/WBWIRocksIterator.java:240-253 | false for null and other classes, true for itself; otherwise throws exactly when this type is null, else compares type, key and value |
| WriteBatchEntries.EqualsSymmetric | java/src/main/java/org/rocksdb/WBWIRocksIterator.java:240-253 | between entries with a type, equals is symmetric |
| MockTimeEnv.ToUInt64 | test_util/mock_time_env.h:75 | the signed-to-unsigned cast wraps negative counts modulo 2^64 |
| MockTimeEnv.TimedWaitDelay | test_util/mock_time_env.h:74-81 | now plus the delay is the deadline when it lies ahead, otherwise now |
| MockTimeEnv.MockSystemClock.constructor | test_util/mock_time_env.h:24-25 | the clock starts at 0 microseconds |
| MockTimeEnv.MockSystemClock.NowSeconds | test_util/mock_time_env.h:35 | the whole seconds of the current time: s*10^6 <= now < (s+1)*10^6 |
| MockTimeEnv.MockSystemClock.NowMicros | test_util/mock_time_env.h:37 | the current time, whose whole seconds are what NowSeconds reports |
| MockTimeEnv.MockSystemClock.NowNanos | test_util/mock_time_env.h:39-42 | under the asserted bound, nanoseconds are the microseconds times 1000 |
| MockTimeEnv.MockSystemClock.GetCurrentTime | test_util/mock_time_env.h:29-33 | returns OK and the whole seconds of the current time |
| MockTimeEnv.MockSystemClock.SetCurrentTime | test_util/mock_time_env.h:46-50 | under the asserted bounds, the time becomes the given seconds in microseconds and never goes back |
| MockTimeEnv.MockSystemClock.SleepForMicroseconds | test_util/mock_time_env.h:58-63 | advances the time by the sleep |
| MockTimeEnv.MockSystemClock.MockSleepForSeconds | test_util/mock_time_env.h:65-70 | advances the time by the seconds in microseconds |
| MockTimeEnv.MockSystemClock.TimedWait | test_util/mock_time_env.h:72-97 | reports the coin; a timeout advances the time by TimedWaitDelay, to the deadline if that lies ahead; a wakeup leaves it unchanged |
| PinnedIterators.PinOrder | db/pinned_iterators_manager.h:66 | pair order on (pointer, release function) is a total order |
| PinnedIterators.Unique | db/pinned_iterators_manager.h:67 | std::unique keeps exactly the elements of its input |
| PinnedIterators.UniqueOfSortedIsDistinct | db/pinned_iterators_manager.h:66-67 | after the sort, unique leaves no duplicates |
| PinnedIterators.DistinctCountsOnce | db/pinned_iterators_manager.h:66-73 | a pair in the deduplicated batch occurs once |
| PinnedIterators.ReleasedExactlyOnce | db/pinned_iterators_manager.h:66-73 | the release batch holds every pinned pair, each exactly once |
| PinnedIterators.SamePointerTwoFunctions | db/pinned_iterators_manager.h:66-73 | one pointer pinned with both release functions is released once per function |
| PinnedIterators.PinnedIteratorsManager.constructor | db/pinned_iterators_manager.h:21 | starts with pinning off and nothing pinned |
| PinnedIterators.PinnedIteratorsManager.StartPinning | db/pinned_iterators_manager.h:34-37 | requires pinning off; turns it on and changes nothing else |
| PinnedIterators.PinnedIteratorsManager.PinningEnabled | db/pinned_iterators_manager.h:40 | reports the flag that StartPinning sets and ReleasePinnedData clears |
| PinnedIterators.PinnedIteratorsManager.PinIterator | db/pinned_iterators_manager.h:43-49 | appends the iterator with the arena or heap release function; a null iterator is skipped |
| PinnedIterators.PinnedIteratorsManager.PinPtr | db/pinned_iterators_manager.h:52-58 | appends the pair unless the pointer is null |
| PinnedIterators.PinnedIteratorsManager.ReleasePinnedData | db/pinned_iterators_manager.h:61-77 | turns pinning off, releases the distinct pinned pairs in sorted order and clears the list |
| PinnedIterators.PinnedIteratorsManager.Destroy | db/pinned_iterators_manager.h:22-26 | releases the pinned data only when pinning is on |
| VectorIterators.Range | util/vector_iterator.h:27-30 | the index vector is 0..n-1 |
| VectorIterators.IndexOrderTotal | util/vector_iterator.h:94-96 | comparing indices through their keys is a total preorder |
| VectorIterators.SortIndices | util/vector_iterator.h:31-33 | sorting the indices permutes them and orders the keys they select |
| VectorIterators.PermutationInRange | util/vector_iterator.h:27-33 | every sorted index is a valid key position |
| VectorIterators.VectorIterator.constructor | util/vector_iterator.h:19-34 | stores keys and values; the indices order the keys when a comparator is given, otherwise keep input order; current is the size |
| VectorIterators.VectorIterator.SeekToFirst | util/vector_iterator.h:40 | current becomes 0; valid exactly when there are keys |
| VectorIterators.VectorIterator.SeekToLast | util/vector_iterator.h:41 | current becomes size-1, wrapping to SIZE_MAX when empty |
| VectorIterators.VectorIterator.Seek | util/vector_iterator.h:43-53 | lower bound: keys before current are below the target and none from it on are |
| VectorIterators.VectorIterator.SeekForPrev | util/vector_iterator.h:55-70 | the last key not above the target, or invalid when every key is above it |
| VectorIterators.VectorIterator.Next | util/vector_iterator.h:72 | increments current modulo 2^64 |
| VectorIterators.VectorIterator.Prev | util/vector_iterator.h:73 | decrements current, wrapping from 0 to SIZE_MAX |
| VectorIterators.VectorIterator.Key | util/vector_iterator.h:75 | the key at the current position in index order |
| VectorIterators.VectorIterator.Value | util/vector_iterator.h:76 | a value paired with the current key |
| VectorIterators.VectorIterator.IsKeyPinned | util/vector_iterator.h:80 | always pinned |
| VectorIterators.VectorIterator.IsValuePinned | util/vector_iterator.h:81 | always pinned |
| VectorIterators.VectorIterator.NotBelowPartitioned | util/vector_iterator.h:45 | on sorted keys "not below the target" is a partition, as lower_bound needs |
| VectorIterators.VectorIterator.AbovePartitioned | util/vector_iterator.h:57 | on sorted keys "above the target" is a partition, as upper_bound needs |
| RangeTombstones.CoveringAppend | db/range_tombstone_fragmenter.cc:231-259 | one more tombstone adds its seqnum at the keys it covers |
| RangeTombstones.CoveringSameElements | db/range_tombstone_fragmenter.cc:61-85 | reordering the input does not change what covers a key |
| RangeTombstones.InsertEndKey | db/range_tombstone_fragmenter.cc:254-257 | the open set gains the new end key and stays ordered by end key |
| RangeTombstones.CoverSetAppend | db/range_tombstone_fragmenter.cc:195-216 | a new fragment adds its slice at its keys and changes nothing elsewhere |
| RangeTombstones.CoverSetAt | db/range_tombstone_fragmenter.cc:195-216 | inside a fragment, the covering seqnums are that fragment's slice |
| RangeTombstones.CoverSetBeyond | db/range_tombstone_fragmenter.cc:218-225 | past the last fragment nothing covers a key |
| RangeTombstones.StripeMonotone | db/range_tombstone_fragmenter.cc:172-173 | a larger seqnum lies in the same or a later snapshot stripe |
| RangeTombstones.BoundaryAtSnapshot | db/range_tombstone_fragmenter.cc:176-181 | every snapshot is a stripe boundary |
| RangeTombstones.KeepPerStripeSet | db/range_tombstone_fragmenter.cc:165-183 | the compaction pruning loop keeps exactly the newest seqnum of each snapshot stripe |
| RangeTombstones.KeepPerStripeDescending | db/range_tombstone_fragmenter.cc:165-183 | the kept seqnums come from the input, stay at most the bound and strictly descend |
| RangeTombstones.FragmentSeqsCorrect | db/range_tombstone_fragmenter.cc:139-193 | a fragment's seqnums descend and are the kept subset of the open seqnums |
| RangeTombstones.WellFormedAppend | db/range_tombstone_fragmenter.cc:195-216 | appending a fragment after the last one keeps the list well formed |
| RangeTombstones.OpenSuffix | db/range_tombstone_fragmenter.cc:115-129 | past the flushed end keys, the still-open tombstones are exactly those covering the key |
| RangeTombstones.FragmentCovers | db/range_tombstone_fragmenter.cc:195-216 | an emitted fragment reports the kept covering set at every key it spans |
| RangeTombstones.KeepKeepsNewest | db/range_tombstone_fragmenter.cc:165-193 | both modes keep the newest covering seqnum and only drop members |
| RangeTombstoneFragmenter.SortedPrefixLength | db/range_tombstone_fragmenter.cc:31-41 | the longest prefix in internal-key order, and the first out-of-order tombstone after it |
| RangeTombstoneFragmenter.InOrderSortedByStart | db/range_tombstone_fragmenter.cc:31-48 | input in internal-key order is sorted by start key |
| RangeTombstoneFragmenter.CheckSorted | db/range_tombstone_fragmenter.cc:31-48 | the check answers sorted exactly for input in internal-key order; the count it leaves is the sorted prefix length |
| RangeTombstoneFragmenter.SortCheckUndercounts | db/range_tombstone_fragmenter.cc:31-78 | on [2,3)@1 then [1,3)@1 the count is 1, not 2 |
| RangeTombstoneFragmenter.SameCoverage | db/range_tombstone_fragmenter.cc:61-85 | the sorted copy has the same covering seqnums as the input at every key |
| RangeTombstoneFragmenter.InputInOrder | db/range_tombstone_fragmenter.cc:31-85 | input in internal-key order is used as it is; otherwise the sorted copy; either way sorted by start, of the input's length and coverage, with every input tombstone counted |
| RangeTombstoneFragmenter.SortThroughVector | db/range_tombstone_fragmenter.cc:61-85 | the unsorted path yields the same tombstones sorted by start key |
| RangeTombstoneFragmenter.ReadAll | db/range_tombstone_fragmenter.cc:231-259 | reading the vector iterator yields its pairs in key order, exactly the pairs it was built from |
| RangeTombstoneFragmenter.SelectedTombstones | util/vector_iterator.h:27-33 | a sorted index permutation selects exactly the input pairs, in start order |
| RangeTombstoneFragmenter.InsertStep | db/range_tombstone_fragmenter.cc:254-257 | opening the next tombstone keeps the sweep invariant |
| RangeTombstoneFragmenter.SweepFinish | db/range_tombstone_fragmenter.cc:260-263 | once no end key is open past the current start, the fragments describe the input |
| RangeTombstoneFragmenter.FragmentsOfSameCoverage | db/range_tombstone_fragmenter.cc:55-85 | fragments of one input describe any input with the same coverage |
| RangeTombstoneFragmenter.FlushCovers | db/range_tombstone_fragmenter.cc:195-216 | a flushed fragment extends the correct prefix up to its end key |
| RangeTombstoneFragmenter.FlushGap | db/range_tombstone_fragmenter.cc:218-225 | a flush that emptied the open set leaves nothing open before the next start key |
| RangeTombstoneFragmenter.LastEndIsMax | db/range_tombstone_fragmenter.cc:260-263 | the last open end key is the largest, so the final flush reaches every end |
| RangeTombstoneFragmenter.FragmentedRangeTombstoneList.constructor | db/range_tombstone_fragmenter.cc:20-86 | the list describes its input: at every key the fragments report the kept covering seqnums; the count is the input size; a null input leaves pinning off; otherwise the iterator that was read, the input or the sorting VectorIterator, is pinned once when non-empty |
| RangeTombstoneFragmenter.FragmentedRangeTombstoneList.FragmentTombstones | db/range_tombstone_fragmenter.cc:88-269 | on input sorted by start key, builds fragments describing the input; turns pinning on and pins a non-empty input iterator with the heap release function |
| RangeTombstoneFragmenter.FragmentedRangeTombstoneList.Sweep | db/range_tombstone_fragmenter.cc:230-263 | the loop over the tombstones and the final flush build fragments describing the input |
| RangeTombstoneFragmenter.FragmentedRangeTombstoneList.AddTombstone | db/range_tombstone_fragmenter.cc:231-259 | flushes up to a new start key, then opens the tombstone |
| RangeTombstoneFragmenter.FragmentedRangeTombstoneList.FlushCurrentTombstones | db/range_tombstone_fragmenter.cc:105-226 | emits fragments up to the next start key and keeps only the open end keys beyond it |
| RangeTombstoneFragmenter.FragmentedRangeTombstoneList.FlushLast | db/range_tombstone_fragmenter.cc:260-263 | the final flush to the largest end key completes the fragments |
| RangeTombstoneFragmenter.FragmentedRangeTombstoneList.AppendFragment | db/range_tombstone_fragmenter.cc:139-216 | appends one fragment and its kept, descending seqnums |
| RangeTombstoneFragmenter.FragmentedRangeTombstoneList.PushNewestPerStripe | db/range_tombstone_fragmenter.cc:165-183 | appends the newest seqnum of each snapshot stripe |
| RangeTombstoneFragmenter.FragmentedRangeTombstoneList.ContainsRange | db/range_tombstone_fragmenter.cc:271-280 | true exactly when some stored seqnum lies in [lower, upper]; builds the seqnum set once |
| RangeTombstoneFragmenter.SetLowerBound | db/range_tombstone_fragmenter.cc:277-279 | std::set::lower_bound: the least member at least the bound, when there is one |
| RangeTombstoneIterators.TopIdx | db/range_tombstone_fragmenter.cc:341-349 | the newest seqnum position of a fragment at most the upper bound lies within its slice |
| RangeTombstoneIterators.NextVisible | db/range_tombstone_fragmenter.cc:415-426 | the first fragment from a position on with a visible seqnum |
| RangeTombstoneIterators.PrevVisible | db/range_tombstone_fragmenter.cc:428-439 | the last fragment at or before a position with a visible seqnum |
| RangeTombstoneIterators.EndsPartitioned | db/range_tombstone_fragmenter.cc:386-396 | fragments ending after a key form a suffix, as upper_bound needs |
| RangeTombstoneIterators.StartsPartitioned | db/range_tombstone_fragmenter.cc:398-413 | fragments starting after a key form a suffix |
| RangeTombstoneIterators.TopIsMax | db/range_tombstone_fragmenter.cc:483-490 | the seqnum at the top position is the fragment's largest at most the upper bound, or 0 |
| RangeTombstoneIterators.MaxCoveringIsMax | db/range_tombstone_fragmenter.cc:483-490 | the covering maximum is the largest covering seqnum at most the upper bound |
| RangeTombstoneIterators.MaxCoveringMatchesInput | db/range_tombstone_fragmenter.cc:20-86 | that maximum is taken over the kept covering input seqnums; for reads, over all covering input seqnums |
| RangeTombstoneIterators.StripesPartition | db/range_tombstone_fragmenter.cc:492-513 | every seqnum lies in exactly one snapshot stripe |
| RangeTombstoneIterators.FragmentedRangeTombstoneIterator.constructor | db/range_tombstone_fragmenter.cc:282-334 | binds the list and bounds and starts past the end |
| RangeTombstoneIterators.FragmentedRangeTombstoneIterator.Invalidate | db/range_tombstone_fragmenter.cc:419-422 | both positions move to their ends, which reads as invalid |
| RangeTombstoneIterators.FragmentedRangeTombstoneIterator.SetMaxVisibleSeq | db/range_tombstone_fragmenter.cc:347 | keeps the fragment and moves to its newest seqnum at most the upper bound |
| RangeTombstoneIterators.FragmentedRangeTombstoneIterator.Valid | db/range_tombstone_fragmenter.cc:479-481 | valid exactly while the position is before the end |
| RangeTombstoneIterators.FragmentedRangeTombstoneIterator.SeekToFirst | db/range_tombstone_fragmenter.cc:336-339 | positions at the first fragment and first seqnum |
| RangeTombstoneIterators.FragmentedRangeTombstoneIterator.SeekToLast | db/range_tombstone_fragmenter.cc:351-354 | positions at the last fragment and last seqnum |
| RangeTombstoneIterators.FragmentedRangeTombstoneIterator.ScanForwardToVisibleTombstone | db/range_tombstone_fragmenter.cc:415-426 | moves forward to the next visible fragment |
| RangeTombstoneIterators.FragmentedRangeTombstoneIterator.ScanBackwardToVisibleTombstone | db/range_tombstone_fragmenter.cc:428-439 | moves back to the previous visible fragment, or invalid |
| RangeTombstoneIterators.FragmentedRangeTombstoneIterator.SeekToTopFirst | db/range_tombstone_fragmenter.cc:341-349 | the first visible fragment |
| RangeTombstoneIterators.FragmentedRangeTombstoneIterator.SeekToTopLast | db/range_tombstone_fragmenter.cc:356-366 | the last visible fragment |
| RangeTombstoneIterators.FragmentedRangeTombstoneIterator.SeekToCoveringTombstone | db/range_tombstone_fragmenter.cc:386-396 | the first fragment ending after the target |
| RangeTombstoneIterators.FragmentedRangeTombstoneIterator.SeekForPrevToCoveringTombstone | db/range_tombstone_fragmenter.cc:398-413 | the last fragment starting at or before the target, or invalid |
| RangeTombstoneIterators.FragmentedRangeTombstoneIterator.Seek | db/range_tombstone_fragmenter.cc:368-375 | the first visible fragment from the one covering or following the target |
| RangeTombstoneIterators.FragmentedRangeTombstoneIterator.SeekForPrev | db/range_tombstone_fragmenter.cc:377-384 | the last visible fragment starting at or before the target |
| RangeTombstoneIterators.FragmentedRangeTombstoneIterator.Next | db/range_tombstone_fragmenter.cc:441-446 | the next seqnum, moving to the next fragment past the slice end |
| RangeTombstoneIterators.FragmentedRangeTombstoneIterator.TopNext | db/range_tombstone_fragmenter.cc:448-455 | the next visible fragment after the current one |
| RangeTombstoneIterators.FragmentedRangeTombstoneIterator.Prev | db/range_tombstone_fragmenter.cc:457-467 | the previous seqnum, moving back a fragment at its slice start; invalid from the first |
| RangeTombstoneIterators.FragmentedRangeTombstoneIterator.TopPrev | db/range_tombstone_fragmenter.cc:469-477 | the previous visible fragment, or invalid |
| RangeTombstoneIterators.FragmentedRangeTombstoneIterator.MaxCoveringTombstoneSeqnum | db/range_tombstone_fragmenter.cc:483-490 | the largest seqnum at most the upper bound among fragments covering the key, or 0 |
| RangeTombstoneIterators.FragmentedRangeTombstoneIterator.SplitBySnapshot | db/range_tombstone_fragmenter.cc:492-513 | one iterator per snapshot stripe holding a seqnum, with that stripe's bounds |
| RangeTombstoneIterators.SplitStripe | db/range_tombstone_fragmenter.cc:497-511 | one loop step adds the stripe's iterator when the stripe holds a seqnum |
| RangeTombstoneIterators.Emplace | db/range_tombstone_fragmenter.cc:506-509 | map emplace inserts only a missing key |
| RangeTombstoneIterators.SplitStep | db/range_tombstone_fragmenter.cc:497-511 | the split map covers one more stripe after each step |
| RangeTombstoneIterators.SplitStripes | db/range_tombstone_fragmenter.cc:492-513 | the split map holds one fresh iterator per snapshot stripe that holds a seqnum |
| CuckooTables.MissingPropertyIsFirst | table/cuckoo/cuckoo_table_reader.cc:72-144 | the reported missing property is the first absent one in check order |
| CuckooTables.MissingProperty | table/cuckoo/cuckoo_table_reader.cc:72-144 | a reported property is absent; with every property present none is reported |
| CuckooTables.OpenStatus | table/cuckoo/cuckoo_table_reader.cc:36-149 | the open is OK only with mmap reads, a readable properties block, every property present and a successful file read; once those checks pass the status is the file read's |
| CuckooTables.DecodeEncode | table/cuckoo/cuckoo_table_reader.cc:78 | little-endian decoding inverts encoding |
| CuckooTables.DecodeLayout | table/cuckoo/cuckoo_table_reader.cc:78-102 | the empty key is the stored property; key length is fixed_key_len cast to 32 bits; bucket length wraps at 2^32 |
| CuckooTables.BucketOffset | table/cuckoo/cuckoo_table_reader.cc:157-160 | the 64-bit bucket offset that Get uses; a bucket at it ends within 2^64, so it never wraps |
| CuckooTables.BucketOffsetsDisjoint | table/cuckoo/cuckoo_table_reader.cc:157-164 | distinct buckets occupy disjoint byte ranges, in bucket order |
| CuckooTables.IteratorBucketOffset | table/cuckoo/cuckoo_table_reader.cc:247-250 | the iterator's uint32 offset equals the true offset exactly when the product fits in 32 bits |
| CuckooTables.IteratorOffsetWraps | table/cuckoo/cuckoo_table_reader.cc:350-351 | bucket 178,956,971 of 24 bytes is read at byte 8, inside bucket 0 |
| CuckooTables.DecodeHashing | table/cuckoo/cuckoo_table_reader.cc:110-145 | the block byte count minus one wraps at 2^32 |
| CuckooTables.ByUserKeyTotalPreorder | table/cuckoo/cuckoo_table_reader.cc:235-261 | bucket order by user key is a total preorder |
| CuckooTables.SortedIsPartitioned | table/cuckoo/cuckoo_table_reader.cc:321-330 | on sorted ids "not below the target" is a partition |
| CuckooTables.CuckooTableReader.constructor | table/cuckoo/cuckoo_table_reader.cc:36-149 | the open status; a failed open loads nothing; a full open decodes every property and reads the file |
| CuckooTables.CuckooTableReader.ProbeFromIsFirst | table/cuckoo/cuckoo_table_reader.cc:157-199 | the probe found is the first stop in probe order |
| CuckooTables.CuckooTableReader.Lookup | table/cuckoo/cuckoo_table_reader.cc:157-199 | a found bucket is in the file |
| CuckooTables.CuckooTableReader.LookupMeaning | table/cuckoo/cuckoo_table_reader.cc:165-171 | found: the bucket holds the key and no earlier probe is empty; not found: every probed bucket holding the key lies at or after an empty bucket that is itself within the probe range |
| CuckooTables.CuckooTableReader.LookupAtFirstStop | table/cuckoo/cuckoo_table_reader.cc:165-171 | at the first probe that stops, the lookup is not found for an empty bucket and found there otherwise |
| CuckooTables.CuckooTableReader.LookupEndsEmpty | table/cuckoo/cuckoo_table_reader.cc:165-168 | an empty bucket reached before any match ends the lookup with not found |
| CuckooTables.CuckooTableReader.LookupEndsFound | table/cuckoo/cuckoo_table_reader.cc:171 | a bucket holding the key, reached before any empty one, is the one found |
| CuckooTables.CuckooTableReader.LookupPasses | table/cuckoo/cuckoo_table_reader.cc:160-197 | a bucket that is neither empty nor a match does not stop the probe |
| CuckooTables.CuckooTableReader.LookupWithoutStop | table/cuckoo/cuckoo_table_reader.cc:157-199 | when every probe passes, the key is not found |
| CuckooTables.CuckooTableReader.ProbeStep | table/cuckoo/cuckoo_table_reader.cc:159-163 | every probed bucket lies in the file and holds a full-length key |
| CuckooTables.CuckooTableReader.FindBucket | table/cuckoo/cuckoo_table_reader.cc:157-198 | the probe loop ends where the lookup does |
| CuckooTables.CuckooTableReader.ProbeBlock | table/cuckoo/cuckoo_table_reader.cc:162-197 | the blocks of one hash function: a stop there gives the lookup's result; otherwise no bucket of the block stops the lookup |
| CuckooTables.CuckooTableReader.NumBuckets | table/cuckoo/cuckoo_table_reader.cc:292 | table_size + cuckoo_block_size - 1, wrapping modulo 2^64 |
| CuckooTables.CuckooTableReader.Get | table/cuckoo/cuckoo_table_reader.cc:151-200 | not found is OK with nothing saved; last level saves the value at kMaxSequenceNumber; otherwise parses the key and passes on the first failing status |
| CuckooTables.CuckooTableReader.NonEmptyIds | table/cuckoo/cuckoo_table_reader.cc:294-300 | the ids of non-empty buckets, increasing |
| CuckooTables.CuckooTableReader.CollectNonEmptyIds | table/cuckoo/cuckoo_table_reader.cc:292-300 | the scan collects exactly those ids |
| CuckooTables.CuckooTableReader.SortByUserKey | table/cuckoo/cuckoo_table_reader.cc:303-304 | the result permutes the non-empty ids and is ordered by user key |
| CuckooTables.CuckooTableReader.LastLevelKeyHasSequenceZero | table/cuckoo/cuckoo_table_reader.cc:352-356 | a last-level key is the user key with sequence 0 and type kTypeValue |
| CuckooTables.InternalKeyFooter | table/cuckoo/cuckoo_table_reader.cc:352-356 | the packed sequence number and type take 8 bytes |
| CuckooTables.CuckooTableIterator.constructor | table/cuckoo/cuckoo_table_reader.cc:275-284 | uninitialised, no ids, index kInvalidIndex |
| CuckooTables.CuckooTableIterator.InitIfNeeded | table/cuckoo/cuckoo_table_reader.cc:286-307 | initialises once; later calls change nothing |
| CuckooTables.CuckooTableIterator.NonEmptyWhenSomeBucketIs | table/cuckoo/cuckoo_table_reader.cc:286-307 | the sorted ids are non-empty exactly when some bucket is non-empty |
| CuckooTables.CuckooTableIterator.PrepareKVAtCurrIdx | table/cuckoo/cuckoo_table_reader.cc:343-360 | the current key and value are those of the current bucket, cleared when invalid |
| CuckooTables.CuckooTableIterator.SeekToFirst | table/cuckoo/cuckoo_table_reader.cc:309-313 | index 0; valid exactly when some bucket is non-empty |
| CuckooTables.CuckooTableIterator.SeekToLast | table/cuckoo/cuckoo_table_reader.cc:315-319 | the last index, or kInvalidIndex when there are no ids |
| CuckooTables.CuckooTableIterator.Seek | table/cuckoo/cuckoo_table_reader.cc:321-332 | lower bound of the target's user key among the sorted buckets |
| CuckooTables.CuckooTableIterator.Next | table/cuckoo/cuckoo_table_reader.cc:362-370 | advances when valid, otherwise stays invalid |
| CuckooTables.CuckooTableIterator.Prev | table/cuckoo/cuckoo_table_reader.cc:372-383 | steps back; from index 0 becomes invalid |
| CuckooTables.CuckooTableIterator.Key | table/cuckoo/cuckoo_table_reader.cc:385-388 | the internal key of the current bucket |
| CuckooTables.CuckooTableIterator.Value | table/cuckoo/cuckoo_table_reader.cc:390-393 | the value of the current bucket |
| ThreadStatus.ThreadTypeNamesDistinct | monitoring/thread_status_impl.cc:17-32 | the four thread types have distinct names, none "Unknown" |
| ThreadStatus.GetThreadTypeName | monitoring/thread_status_impl.cc:17-32 | every thread type except the asserted-out count has a non-empty name other than "Unknown" |
| ThreadStatus.GetOperationName | monitoring/thread_status_impl.cc:34-40 | the operation table's entry, or the OP_UNKNOWN entry out of range |
| ThreadStatus.GetOperationStageName | monitoring/thread_status_impl.cc:42-48 | the stage table's entry, or the STAGE_UNKNOWN entry out of range |
| ThreadStatus.GetStateName | monitoring/thread_status_impl.cc:50-56 | the state table's entry, or the STATE_UNKNOWN entry out of range |
| ThreadStatus.TableName | monitoring/thread_status_impl.cc:34-56 | the entry at the index, or the UNKNOWN entry for an out-of-range index |
| ThreadStatus.MicrosToString | monitoring/thread_status_impl.cc:58-66 | zero prints as the empty string, anything else through the formatter |
| ThreadStatus.GetOperationPropertyName | monitoring/thread_status_impl.cc:68-85 | the property name for compaction and flush indices in range, otherwise empty |
| ThreadStatus.NumProperties | monitoring/thread_status_impl.cc:68-85 | the number of named properties is at most kNumOperationProperties |
| ThreadStatus.PropertyNames | monitoring/thread_status_impl.cc:68-85 | one name per property of the operation type |
| ThreadStatus.Insert | monitoring/thread_status_impl.cc:104-113 | std::map::insert adds a missing key and keeps an existing value |
| ThreadStatus.InterpretOperationProperties | monitoring/thread_status_impl.cc:87-117 | the map the loop builds; empty for types other than compaction and flush |
| ThreadStatus.InterpretedKeepsFirst | monitoring/thread_status_impl.cc:102-115 | a key inserted early keeps its value through later steps |
| ThreadStatus.InterpretFlush | monitoring/thread_status_impl.cc:87-117 | a flush maps its three property names to the three slots |
| ThreadStatus.InterpretCompaction | monitoring/thread_status_impl.cc:87-117 | a compaction splits slot 1 into base input and output levels and slot 2 into three flag bits |
| ThreadStatusUpdaters.Zeros | monitoring/thread_status_updater.cc:138-146 | the cleared property vector |
| ThreadStatusUpdaters.CfInfoAfterNew | monitoring/thread_status_updater.cc:232-243 | the column family gets its info unless already present |
| ThreadStatusUpdaters.DbKeysAfterNew | monitoring/thread_status_updater.cc:232-243 | the database's set gains the column family |
| ThreadStatusUpdaters.NewColumnFamilyKeepsConsistent | monitoring/thread_status_updater.cc:232-243 | registering keeps the two maps consistent |
| ThreadStatusUpdaters.NewColumnFamilyUnderOtherDatabase | monitoring/thread_status_updater.cc:232-243 | re-registering a column family under another database breaks consistency |
| ThreadStatusUpdaters.EraseColumnFamilyKeepsConsistent | monitoring/thread_status_updater.cc:245-263 | erasing a column family keeps the maps consistent and every database key |
| ThreadStatusUpdaters.EraseDatabaseKeepsConsistent | monitoring/thread_status_updater.cc:265-283 | erasing a database drops exactly its column families |
| ThreadStatusUpdaters.Report | monitoring/thread_status_updater.cc:196-217 | one row: names from the registry; unregistered or idle threads report an unknown operation with zero properties |
| ThreadStatusUpdaters.ReportsAt | monitoring/thread_status_updater.cc:185-219 | row k reports the k-th record |
| ThreadStatusUpdaters.Reports | monitoring/thread_status_updater.cc:185-219 | one row per record |
| ThreadStatusUpdaters.ListedRowsCover | monitoring/thread_status_updater.cc:185-219 | every listed record has its row among the reports |
| ThreadStatusUpdaters.ThreadStatusData.constructor | monitoring/thread_status_updater.cc:24 | a new record starts untracked with zeroed fields, as the last thread-status line under "## Left out" takes from the header |
| ThreadStatusUpdaters.ThreadStatusUpdater.constructor | monitoring/thread_status_updater.cc:18-19 | the thread-local record pointer starts null; the thread list and both registry maps start empty, as the last thread-status line under "## Left out" takes from the header |
| ThreadStatusUpdaters.ThreadStatusUpdater.GetLocalThreadStatus | monitoring/thread_status_updater.cc:222-230 | the local record when it exists and tracking is on, otherwise null |
| ThreadStatusUpdaters.ThreadStatusUpdater.RegisterThread | monitoring/thread_status_updater.cc:22-33 | creates and lists the local record once; a repeated call clears the properties if tracking is on |
| ThreadStatusUpdaters.ThreadStatusUpdater.UnregisterThread | monitoring/thread_status_updater.cc:35-42 | removes the local record from the list and clears the pointer |
| ThreadStatusUpdaters.ThreadStatusUpdater.ResetThreadStatus | monitoring/thread_status_updater.cc:44-48 | clears state, operation and column family |
| ThreadStatusUpdaters.ThreadStatusUpdater.SetEnableTracking | monitoring/thread_status_updater.cc:50-56 | sets the flag on an existing record |
| ThreadStatusUpdaters.ThreadStatusUpdater.SetColumnFamilyInfoKey | monitoring/thread_status_updater.cc:58-64 | sets the key on an existing record |
| ThreadStatusUpdaters.ThreadStatusUpdater.GetColumnFamilyInfoKey | monitoring/thread_status_updater.cc:66-72 | the key when tracked, otherwise null |
| ThreadStatusUpdaters.ThreadStatusUpdater.SetThreadOperation | monitoring/thread_status_updater.cc:74-91 | sets the type; the unknown type also clears stage and properties |
| ThreadStatusUpdaters.ThreadStatusUpdater.GetThreadOperation | monitoring/thread_status_updater.cc:93-99 | the type when tracked, otherwise OP_UNKNOWN |
| ThreadStatusUpdaters.ThreadStatusUpdater.SetThreadOperationProperty | monitoring/thread_status_updater.cc:101-107 | writes one slot when tracked |
| ThreadStatusUpdaters.ThreadStatusUpdater.IncreaseThreadOperationProperty | monitoring/thread_status_updater.cc:109-116 | adds to one slot modulo 2^64, others unchanged |
| ThreadStatusUpdaters.ThreadStatusUpdater.SetOperationStartTime | monitoring/thread_status_updater.cc:118-124 | sets the start time when tracked |
| ThreadStatusUpdaters.ThreadStatusUpdater.ClearThreadOperation | monitoring/thread_status_updater.cc:126-136 | resets stage, type and properties when tracked |
| ThreadStatusUpdaters.ThreadStatusUpdater.ClearThreadOperationProperties | monitoring/thread_status_updater.cc:138-146 | zeroes the properties when tracked |
| ThreadStatusUpdaters.ThreadStatusUpdater.SetThreadOperationStage | monitoring/thread_status_updater.cc:148-155 | returns the old stage and sets the new one; STAGE_UNKNOWN when untracked |
| ThreadStatusUpdaters.ThreadStatusUpdater.SetThreadState | monitoring/thread_status_updater.cc:157-163 | sets the state when tracked |
| ThreadStatusUpdaters.ThreadStatusUpdater.ClearThreadState | monitoring/thread_status_updater.cc:165-172 | resets the state when tracked |
| ThreadStatusUpdaters.ThreadStatusUpdater.GetThreadList | monitoring/thread_status_updater.cc:174-220 | one row per listed record: every record's row appears, and every row reports some record |
| ThreadStatusUpdaters.ThreadStatusUpdater.NewColumnFamilyInfo | monitoring/thread_status_updater.cc:232-243 | updates both maps, keeping them consistent |
| ThreadStatusUpdaters.ThreadStatusUpdater.EraseColumnFamilyInfo | monitoring/thread_status_updater.cc:245-263 | removes the column family from both maps |
| ThreadStatusUpdaters.ThreadStatusUpdater.EraseDatabaseInfo | monitoring/thread_status_updater.cc:265-283 | removes the database and its column families |

## Left out

- User keys of range tombstones are integers in natural order; the user
  comparator is taken to be a total order. User-defined timestamps
  (`ts_sz > 0`, lines 153-160 and 196-206 of
  db/range_tombstone_fragmenter.cc) and the pinned key slices are not
  modelled.
- The fragmenter's input iterator is the sequence of tombstones it yields.
  Tombstones are assumed well formed (start <= end). The source relies on
  this without checking it.
- RangeTombstoneFragmenter.FragmentedRangeTombstoneList.constructor: the
  fragments are specified by what they report at every key. It is not proved
  that the sorted path and the unsorted path build identical fragment and
  seqnum vectors from the same tombstones. Only their equal coverage is
  proved.
- `total_tombstone_payload_bytes_` (db/range_tombstone_fragmenter.cc:32-36,
  65-69 and 80) is not modelled: user keys are integers and have no byte
  size.
- The list's destructor, which releases what its pinned-iterators manager
  holds, is not modelled; the manager's own release is.
- The fragmenter's other constructor variants, `std::call_once` and the
  thread safety of `ContainsRange` are not modelled.
- db/range_tombstone_fragmenter.h is not part of this model. The iterator
  helpers it declares are specified from their uses, for keys without
  timestamps:
  - `SetMaxVisibleSeqAndTimestamp`: the first seqnum at most the upper
    bound in the fragment's slice.
  - `Invalidate`: both positions at their ends.
  - `ValidPos`: valid with a seqnum inside the slice.
- `Cleanable::Reset` at the end of `ReleasePinnedData` is not modelled.
  Releasing a pointer is modelled as appending the pair to a log.
- The move constructor and move assignment of PinnedIteratorsManager are
  not modelled.
- Debug `assert`s of the source are stated as preconditions, on the
  assumption that callers keep them. This applies to:
  - `StartPinning`, `PinIterator` and `PinPtr` (pinning is on or off as
    each expects).
  - The cuckoo iterator's `Key` and `Value` (the iterator is valid).
  - `GetThreadTypeName` (never the count sentinel).
  - `EraseColumnFamilyInfo` (the column family is registered).
  - `CuckooTableReader.Get` (the key's size).
  - The `VectorIterator` constructor (as many values as keys).
  - `CuckooTableIterator` (the bucket count fits, through `Iterable`).
  - `MockSystemClock` (its bounds).
- MockTimeEnv: the base clock (`RealNowMicros`), the mutex unlock and
  relock, the yield and the sync points are not modelled. The random coin
  of `TimedWait` is a parameter. The `assert`s are preconditions.
- VectorIterators.VectorIterator.Value: the result is stated as a value
  paired with the current key. With duplicate keys this does not say which
  of the equal keys' values it is.
- `Slice::compare` is modelled on unbounded integer bytes in memcmp order.
- Cuckoo reader:
  - `CuckooHash`, `ReadTableProperties`, the whole-file read,
    `ParseInternalKey` and `GetContext::SaveValue` are parameters.
  - The user comparator's `Equal` and `Compare` are byte-wise.
  - The file is the sequence of its buckets.
  - Fixed-width property values are decoded little-endian.
  - `Prepare`, `NewIterator`, `ApproximateMemoryUsage` and the iterator's
    unsupported `SeekForPrev` are not modelled.
  - The `num_entries` assertion in `InitIfNeeded` is not modelled.
  - The reader header and table/cuckoo/cuckoo_table_factory.h are not part
    of this model.
- CuckooTables.CuckooTableReader.SortByUserKey: orders buckets by
  `fileData[id]`, the bucket at the 64-bit offset. The source's comparator
  uses a uint32 offset, which wraps for tables of 4 GiB or more (see
  "## Findings").
- CuckooTables.CuckooTableIterator.Seek: the lower bound is taken over the
  buckets at their 64-bit offsets, not the wrapped uint32 offsets of the
  source's comparator (see "## Findings").
- CuckooTables.CuckooTableIterator.PrepareKVAtCurrIdx: reads the bucket at
  the 64-bit offset. The source reads at the wrapped uint32 offset (see
  "## Findings").
- CuckooTables.CuckooTableIterator.Key: the current bucket's key, which the
  source delivers only while the uint32 offset does not wrap (see
  "## Findings").
- CuckooTables.CuckooTableIterator.Value: the current bucket's value, which
  the source delivers only while the uint32 offset does not wrap (see
  "## Findings").
- CuckooTables.CuckooTableReader.constructor: a failed open is stated to
  leave every decoded field at its initial value. The source keeps the
  fields decoded before the missing property.
- Thread status:
  - `AppendHumanMicros` is a parameter.
  - The `thread_local` pointer, the atomics, memory orders and the list
    mutex are sequentialised for one calling thread.
  - The `#else` stubs built without thread-status support are not
    modelled.
  - monitoring/thread_status_updater.h, include/rocksdb/thread_status.h
    and util/thread_operation.h are not part of this model. Their
    name tables are a parameter. A new record is taken to start untracked
    with zeroed fields, and the updater's thread list and registry maps to
    start empty.
- Java: `DirectSlice` contents are byte sequences compared by value. The
  native handles, `close`, `hashCode` and the getters of `WriteEntry` are
  not modelled.

## Findings

| source | as written | input that shows it | evidently intended | confidence | as-written member | corrected member |
|---|---|---|---|---|---|---|
| db/range_tombstone_fragmenter.cc:31-78 | the first loop counts tombstones only until it finds one out of order; the unsorted path re-reads all of them without counting, so `num_unfragmented_tombstones_` holds the length of the sorted prefix | tombstones [2,3)@1 then [1,3)@1: the count is 1 | the count is the number of input tombstones, 2 | medium, not executed | RangeTombstoneFragmenter.SortCheckUndercounts | RangeTombstoneFragmenter.InputInOrder |
| table/cuckoo/cuckoo_table_reader.cc:247-250 | the iterator's bucket comparator, and `PrepareKVAtCurrIdx` at line 351, compute a bucket's byte offset as a uint32 product, which wraps modulo 2^32 | a table of 200,000,000 buckets of 24 bytes: bucket 178,956,971 is read at byte 8, inside bucket 0 | the 64-bit offset that `Get` uses (lines 157-160) | medium, not executed | CuckooTables.IteratorOffsetWraps | CuckooTables.BucketOffset |
