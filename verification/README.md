# Verified model of an object data grid

A model, in Dafny, of the parts of the OaaS-IoT repository whose correctness is hard to see
from the code: how objects are flattened into one ordered key space and read back, the
generic storage layer below it, the replication of shards, the control-plane store, the
SDK's state handling, and a few state machines around them. Every member verifies without
assumptions; `dafny verify dfyconfig.toml` checks the whole project.

The model follows the code. Code that works by loops and assignments is a method or a class
with a contract in terms of a specification function; the results are lemmas about those
functions, over all inputs, all runs or all interleavings.

| module | models |
|---|---|
| `Bytes`, `Utf8`, `Collections` | byte order, the UTF-8 test and the encoding it stands for (section 3 of RFC 3629), and a few notions about collections |
| `Varint`, `StorageKey`, `KeyFault`, `Identity`, `KeySpace` | LEB128 lengths (section 7.6 of DWARF Version 5), record keys and their parser, where the parser overflows, ids, the order of the key space |
| `OrderedStore`, `Paging`, `Snapshot`, `CompareAndSwap`, `Increment`, `AnyStorage` | the generic storage layer over one ordered map |
| `Stats`, `MemoryStorage` | the counters, and the in-memory backend that keeps them |
| `ObjectGrid`, `EntryList`, `EntryListProof`, `PrefixGap` | many objects in one flat store; listing an object's entries page by page, and by prefix |
| `LittleEndian`, `Metadata` | the byte form of object metadata |
| `MstReplication` | replicas that exchange pages and merge them |
| `ControlPlane`, `FlatStore`, `ControlPlaneStores`, `ControlPlaneHistory` | the control-plane store in memory and in etcd, why the second simulates the first, and what both answer in terms of the operations made |
| `ObjectEvents` | merging trigger definitions |
| `SdkState`, `SdkDispatch`, `SdkExample` | load, run, diff and save around a user's method, and a small service |
| `Assignments`, `NetSim`, `ObjectRef`, `ProxyHost`, `Pool` | shard assignments, simulated links, object references, proxy handles, session pool |

## Reading guide

* A paginated read under concurrent changes: `Paging.RunReadsRange`, `Paging.PagingIsExact`.
* One flat key space holds many objects without mixing them: `KeySpace.BlocksOrderedAsIds`,
  `ObjectGrid.ScanRecoversObject`, `EntryListProof.ListingIsTheObject`.
* Two-step compare-and-swap and increment under every interleaving:
  `CompareAndSwap.AtomicIffStillMatches`, `CompareAndSwap.SomePlaceIff`,
  `Increment.Conservation`.
* What a chain of listing pages returns: `EntryListProof.ChainReturnsPrefix`,
  `PrefixGap.GapOutcomes`.
* Convergence of replicas under reordered, late and repeated exchanges:
  `MstReplication.RunAgrees`, `MstReplication.SameWritesSameStore`; under the default merge
  `MstReplication.DefaultTakesLast`; deletes: `MstReplication.DeleteIsFinalIff`.
* A flat etcd store simulates typed maps: `FlatStore.RunSimulates`; what both answer after
  any history: `ControlPlaneHistory.MemoryAnswers`, `ControlPlaneHistory.EtcdAnswers`.
* Fresh instances per call cannot be told from one object: `SdkState.RunMatches`,
  `SdkState.ShimIsTransparent`; what one call answers: `SdkState.AnswerIs`.
* What a history of link commands means: `NetSim.RunMeaning`.

## Where the code does less than its text says

Each of these is stated exactly, by a concrete instance, an if-and-only-if, or both.

* Entries do not sort lexicographically by key (`KeySpace.ShorterKeyFirst`,
  `KeySpace.LongerKeyFirst`, `KeySpace.RecordOrder`), and a listing by prefix stops at the
  first entry that does not match after one that did
  (`EntryListProof.PrefixListingStopsEarly`). One page with room for all matches is complete
  exactly when these are contiguous (`EntryListProof.CompleteIffContiguous`). A chain of pages
  returns the first of the matches and loses exactly those that its last page leaves
  (`EntryListProof.ChainReturnsPrefix`). Contiguous matches are never lost, and only these
  are found at every page size (`PrefixGap.CompleteAtEverySizeIff`); others may be lost or not,
  depending on the page size (`PrefixGap.GapOutcomes`, with stores of both kinds in
  `PrefixGap.GapExists`).
* The byte counter never gives back the old value of an overwriting put
  (`MemoryStorage.CountersAfterRun`, `MemoryStorage.OverwriteLeaks`).
* Increments that overlap lose updates, exactly as much as others added in between
  (`Increment.Conservation`, `Increment.RightIffUndisturbed`, `Increment.OneOfTwoIsLost`); any number of clients can be told that
  they created one key (`CompareAndSwap.AllToldTheyCreated`).
* A snapshot that holds the empty key arrives empty, because a zero key length ends the
  stream (`Snapshot.TransferIsExact`).
* Tie-breaking by node id, described as deterministic, does not make replicas agree
  (`MstReplication.ExchangeAgreesIff`, `MstReplication.CrossingAgreesIff`). The merge that
  shards are built with takes whatever comes last: it never settles under crossing exchanges
  (`MstReplication.CrossingNeverSettles`), and a late answer replaces a newer write
  (`MstReplication.LateAnswerReplaces`). Under either merge a delete is final only if no other
  replica and no answer not yet merged has the key (`MstReplication.DeleteIsFinalIff`).
* The etcd package listing ignores its filter (`FlatStore.StepAnswers`), and deployment keys
  with a slash are not listed (`FlatStore.ListedIffSlashFree`) or are mistaken for mappings
  (`FlatStore.SlashKeyLeaks`).
* A remote invocation without remote proxy leaves the re-entrancy depth raised
  (`ProxyHost.RunInvariant`); enough of them shut out every later invocation
  (`ProxyHost.RefusalIsPermanent`).
* The SDK reports an error for a result that cannot be serialised after it has saved the
  fields; every other error leaves them as they were (`SdkState.ErrorKeepsFieldsIff`,
  `SdkExample.ErrorButSaved`).
* The object-reference parsers document that an id has no slash; both accept one, and the
  round trip holds for it (`ObjectRef.PrintParse`, `ObjectRef.SdkPrintParse`). In the SDK a
  partition from 10^21 on comes back as a single digit (`ObjectRef.LargeNumbersCollapse`).
* Parsing a storage key whose length field is near 2^64 overflows an addition. The model gives
  such keys their own outcome, `Fault`; which keys these are is `KeyFault.FaultIff`, one for
  every id is `KeyFault.FaultExists`, and built keys never are (`StorageKey.ParseBuilt`).

## Model

| member | source | states |
|---|---|---|
| `Bytes.SliceLess` | commons/oprc-dp-storage/src/storage_value.rs:137-142 | the element-by-element comparison of byte slices is the lexicographic order defined by a first differing place |
| `Bytes.LessTotal` | commons/oprc-dp-storage/src/storage_value.rs:137-142 | with `LessTransitive` and `LessIrreflexive`, the order that every scan relies on is a strict total order |
| `Bytes.PrefixIsInterval` | commons/oprc-dp-storage/src/storage_value.rs:137-142 | strings with one common prefix are an interval of the order |
| `Utf8.ValidIsEncoding` | data-plane/oprc-odgm/src/storage_key.rs:66-80 | what passes the UTF-8 test is the encoding of some sequence of scalar values (section 3 of RFC 3629), surrogates and overlong forms excluded |
| `Utf8.EncodingIsValid` | data-plane/oprc-odgm/src/storage_key.rs:66-80 | and every such encoding passes |
| `Varint.EncodeVarint` | data-plane/oprc-odgm/src/storage_key.rs:106-112 | the loop appends the LEB128 encoding, for every 64-bit value |
| `Varint.DecodeVarint` | data-plane/oprc-odgm/src/storage_key.rs:88-103 | the loop over `shift` and `value`, in 64-bit arithmetic with lost high bits, returns what `Decode` says |
| `Varint.DecodeReads` | data-plane/oprc-odgm/src/storage_key.rs:88-103 | the decoder accepts exactly when a byte below 0x80 occurs within the first ten, and then returns the weighted sum of the seven-bit groups up to it modulo 2^64: nothing is read past that byte |
| `Varint.DecodeEncoding` | data-plane/oprc-odgm/src/storage_key.rs:88-112 | every 64-bit value followed by any bytes decodes to itself and to the number of bytes its encoding has |
| `Varint.AcceptedIsEncodingIffMinimal` | data-plane/oprc-odgm/src/storage_key.rs:88-112 | the bytes consumed are the encoding of the value returned if and only if they are minimal (no superfluous last zero group, no bits beyond 64) |
| `StorageKey.MetaKey` | data-plane/oprc-odgm/src/storage_key.rs:9-15 | builds the metadata key that the codec laws are about: the id, 0, 0 |
| `StorageKey.EventConfigKey` | data-plane/oprc-odgm/src/storage_key.rs:18-24 | builds the event configuration key that the codec laws are about: the id, 0, 1 |
| `StorageKey.EntryKey` | data-plane/oprc-odgm/src/storage_key.rs:27-38 | builds the entry key that the codec laws are about, for every key length: the id, 0, 0x11, the LEB128 length, the key |
| `StorageKey.Position0` | data-plane/oprc-odgm/src/storage_key.rs:61-65 | the terminator found is the first zero byte |
| `StorageKey.ParseBuilt` | data-plane/oprc-odgm/src/storage_key.rs:9-85 | parsing any built key, even with trailing bytes, gives back its id and record, for NUL-free ids |
| `StorageKey.BuildPrefixFree` | data-plane/oprc-odgm/src/storage_key.rs:9-38 | no built key is a proper prefix of another: building is injective on (id, record) |
| `StorageKey.AcceptedStartsWithBuilt` | data-plane/oprc-odgm/src/storage_key.rs:58-103 | whatever is accepted has a valid id and record, and its rebuilt key is a prefix of the input if and only if the length was written minimally |
| `StorageKey.ParseIff` | data-plane/oprc-odgm/src/storage_key.rs:58-85 | which bytes parse, and to what, over the bytes alone: a valid id up to the first zero, then a record type; for an entry a length of at most ten bytes, worth the key length modulo 2^64, and a valid key |
| `KeyFault.FaultIff` | data-plane/oprc-odgm/src/storage_key.rs:58-103 | the parser overflows if and only if the key is an entry key of a valid id whose length field has the full ten bytes, the top bit set, and low 63 bits that reach 2^63 together with the field's own end |
| `KeyFault.DecodedLength` | data-plane/oprc-odgm/src/storage_key.rs:88-103 | every length that does not come from such a field is below 2^63, so no other key can overflow |
| `KeyFault.FaultExists` | data-plane/oprc-odgm/src/storage_key.rs:74-79 | for every id there is a key that overflows: nine bytes 0xFF and 0x01 as length |
| `Identity.NormalizedIsId` | data-plane/oprc-odgm/src/identity.rs:53-71 | acceptance is exactly non-empty, within the maximum, and allowed characters after lowering; an accepted id is NUL-free UTF-8, which the codec needs, and normalising again changes nothing; what the id is, `NormalizedIs` says |
| `Identity.NormalizedIs` | data-plane/oprc-odgm/src/identity.rs:53-71 | the id that comes out has every character in its place, capitals as their small letters, all in the allowed alphabet; and which of the three errors is given exactly when |
| `Identity.SameIdIff` | data-plane/oprc-odgm/src/identity.rs:53-71 | two accepted ids name one object if and only if they are equal up to the case of letters |
| `KeySpace.BlockIsRange` | data-plane/oprc-odgm/src/shard/entry_store_impl.rs:921-929 | the half-open range from the object prefix to the computed end holds exactly the keys with that prefix |
| `KeySpace.BlocksOrderedAsIds` | data-plane/oprc-odgm/src/storage_key.rs:41-46 | keys of different NUL-free ids compare as the ids do, so each object is one contiguous block |
| `KeySpace.RecordOrder` | data-plane/oprc-odgm/src/storage_key.rs:9-38 | within an object: metadata, then event configuration, then entries; entries in the order of their LEB128 length, and lexicographically for equal lengths, at every length |
| `KeySpace.ShortEntriesShortlex` | data-plane/oprc-odgm/src/storage_key.rs:27-38 | a key shorter than 128 bytes sorts by length, then lexicographically, against every other key |
| `KeySpace.ShorterKeyFirst` | data-plane/oprc-odgm/src/granular_key.rs:326-337 | "b" sorts before "aa": entry order is not lexicographic, contrary to the comment there |
| `KeySpace.LongerKeyFirst` | data-plane/oprc-odgm/src/storage_key.rs:106-112 | every 256-byte key sorts before every 255-byte key: beyond 127 bytes the order is not by length either |
| `ObjectGrid.ScanRecoversObject` | data-plane/oprc-odgm/src/granular_key.rs:182-193 | scanning an object's block in a flat store of many objects and parsing the keys recovers exactly that object's records and nothing of any other |
| `ObjectGrid.SameBlock` | data-plane/oprc-odgm/src/storage_key.rs:41-46 | no key carries the prefixes of two different NUL-free ids |
| `ObjectGrid.DeleteRemovesObject` | data-plane/oprc-odgm/src/shard/entry_store_impl.rs:725-751 | deleting an object's range leaves exactly the flat store of all other objects |
| `EntryList.ListChunk` | data-plane/oprc-odgm/src/shard/entry_store_impl.rs:362-465 | the loop over one chunk returns exactly the pass over it, whether a match has been seen, and, on a full page, the decision from the next pair and the storage cursor |
| `EntryList.ListEntries` | data-plane/oprc-odgm/src/shard/entry_store_impl.rs:307-495 | the chunked loop with cursor, limit, prefix and early stop returns exactly the entries of one pass over the pairs from the start key on, at most the limit and at most 1024, and a cursor exactly when `More` decides so, then with a full page |
| `EntryList.PassSplit` | data-plane/oprc-odgm/src/shard/entry_store_impl.rs:345-473 | reading in chunks is reading in one pass: a pass over a chunk either stops there, leaving all later pairs, or continues with them in the state it has reached |
| `EntryList.MoreMeans` | data-plane/oprc-odgm/src/shard/entry_store_impl.rs:398-448 | more is reported only at a full page; without prefix exactly when a pair is left, with prefix always when the next pair matches and only when a pair is left |
| `EntryList.MoreAvailableIff` | data-plane/oprc-odgm/src/shard/entry_store_impl.rs:398-448 | the decision at a full page, in terms of the pairs left: something is left, and with a prefix the next pair matches, or chunk and storage both have more and the storage's next is an entry of the object |
| `EntryList.MoreAvailableIsRight` | data-plane/oprc-odgm/src/shard/entry_store_impl.rs:398-448 | a full page reports more without prefix exactly when a pair is left, and with prefix always when the next pair matches |
| `EntryListProof.CompleteIffContiguous` | data-plane/oprc-odgm/src/shard/entry_store_impl.rs:379-388 | a large enough page returns every matching entry if and only if no non-matching entry lies between matching ones |
| `EntryListProof.ResumeContinues` | data-plane/oprc-odgm/src/shard/entry_store_impl.rs:322-373 | resuming from the cursor of a full page continues exactly where that page stopped |
| `EntryListProof.OwnCursorResumes` | data-plane/oprc-odgm/src/shard/entry_store_impl.rs:322-373 | any cursor of the object, whether its entry still exists or not, resumes with exactly the pairs of the block beyond it, ascending |
| `EntryListProof.PageIsFirst` | data-plane/oprc-odgm/src/shard/entry_store_impl.rs:307-495 | a page over contiguous matches is the first of them, as many as the limit and 1024 allow |
| `EntryListProof.ChainComplete` | data-plane/oprc-odgm/src/shard/entry_store_impl.rs:307-495 | pages chained by their cursors concatenate to exactly the matching entries, when those are contiguous |
| `EntryListProof.ChainReturnsPrefix` | data-plane/oprc-odgm/src/shard/entry_store_impl.rs:307-495 | whatever the entries are, a chain of pages returns the first of the matches in order with none left out, and is complete if and only if its last page leaves no match |
| `EntryListProof.ChainIsChained` | data-plane/oprc-odgm/src/shard/entry_store_impl.rs:487-494 | following the returned cursors to the end gives exactly that chain |
| `PrefixGap.CompleteAtEverySizeIff` | data-plane/oprc-odgm/src/shard/entry_store_impl.rs:307-495 | an object whose matches fit the largest page is listed completely, at every page size, if and only if its matches are contiguous |
| `PrefixGap.GapOutcomes` | data-plane/oprc-odgm/src/shard/entry_store_impl.rs:379-448 | two matches with other entries between them: pages of two or more always lose the second, pages of one lose it if and only if the gap is shorter than the read-ahead of sixteen |
| `PrefixGap.GapExists` | data-plane/oprc-odgm/src/shard/entry_store_impl.rs:307-495 | stores with gaps of every length up to 29, so both outcomes occur |
| `EntryListProof.CountEntries` | data-plane/oprc-odgm/src/shard/entry_store_impl.rs:754-779 | counting by chained pages gives the number of entries of one pass |
| `EntryListProof.TodoOfGrid` | data-plane/oprc-odgm/src/shard/entry_store_impl.rs:319-335 | on a flat store of many objects a listing starts with exactly the object's entries |
| `EntryListProof.ListingIsTheObject` | data-plane/oprc-odgm/src/shard/entry_store_impl.rs:307-495 | chained listing of an object returns each of its decodable entries with the prefix once, in key-space order, and nothing else |
| `EntryListProof.PrefixListingStopsEarly` | data-plane/oprc-odgm/src/shard/entry_store_impl.rs:379-388 | with entries "a", "b", "aa" and prefix "a" the listing loses "aa": the early stop assumes lexicographic order |
| `EntryListProof.ForeignCursorSkips` | data-plane/oprc-odgm/src/shard/entry_store_impl.rs:322-337 | a cursor that is not of the object restarts the listing, and skips the entry with the empty key: it equals a fresh listing if and only if there is no such entry |
| `OrderedStore.Scan` | commons/oprc-dp-storage/src/backends/memory.rs:239-275 | a scan lists exactly the pairs of the range, ascending in the byte order |
| `OrderedStore.ListsUnique` | commons/oprc-dp-storage/src/backends/memory.rs:239-275 | a range has one such listing, so scans are determined by the map |
| `OrderedStore.FullScanSize` | commons/oprc-dp-storage/src/any_storage.rs:622-629 | a full scan has as many pairs as the map and their summed lengths are the map's size |
| `Paging.PageLists` | commons/oprc-dp-storage/src/any_storage.rs:792-816 | a page with limit at least 1 is exactly the scan up to its cursor, holds the smaller of the limit and what the range has, and the cursor advances strictly within the range |
| `Paging.RunReadsRange` | commons/oprc-dp-storage/src/any_storage.rs:792-816 | over any run of pages, with arbitrary changes of the map between them, the keys read ascend strictly (none twice), every pair was in the map at some page, and every key present throughout up to the cursor has been read |
| `Paging.PagesAreOwn` | commons/oprc-dp-storage/src/any_storage.rs:792-816 | what has been read is the pages one after the other, and every pair of a page is one the map had when that page was read |
| `Paging.PagingIsExact` | commons/oprc-dp-storage/src/any_storage.rs:792-816 | a finished run returns every key of the range that was present throughout exactly once |
| `Paging.ConstantRun` | commons/oprc-dp-storage/src/any_storage.rs:792-816 | without changes the pages concatenate to the scan, and the run ends within one page more than there are pairs |
| `Paging.LimitZeroIsStuck` | commons/oprc-dp-storage/src/any_storage.rs:792-816 | with limit 0 on a non-empty range every page is empty and the cursor never moves |
| `AnyStorage.AnyStorage.ScanRangePaginated` | commons/oprc-dp-storage/src/any_storage.rs:792-816 | the scan-and-truncate method returns the page that the paging results are about; without limit it returns every pair of the range, ascending, and no cursor |
| `AnyStorage.AnyStorage.MultiGet` | commons/oprc-dp-storage/src/any_storage.rs:818-827 | one answer per key, in order, each the stored value or none |
| `AnyStorage.AnyStorage.CompareAndSwapValue` | commons/oprc-dp-storage/src/any_storage.rs:829-856 | alone, it succeeds if and only if the key holds the expected value (or is missing when that is expected), then stores or removes, and touches no other key: the atomic swap |
| `CompareAndSwap.AtomicIffStillMatches` | commons/oprc-dp-storage/src/any_storage.rs:829-856 | for every interleaving of read steps, write steps and other writes, results and final map equal those of the atomic order that has each swap at its write step, if and only if every write step still finds what its read step saw expected |
| `CompareAndSwap.UndisturbedIsAtomic` | commons/oprc-dp-storage/src/any_storage.rs:829-856 | hence they are equal whenever no other write to the key falls between the two steps |
| `CompareAndSwap.SomePlaceIff` | commons/oprc-dp-storage/src/any_storage.rs:829-856 | for one swap and any other writes between its two steps: some place for an atomic swap among them gives the same result and map, if and only if just before the write step the key holds the expected value or already the new one |
| `CompareAndSwap.OneCreates` | commons/oprc-dp-storage/src/any_storage.rs:829-856 | in every atomic order of any creations of one missing key exactly one succeeds |
| `CompareAndSwap.AllToldTheyCreated` | commons/oprc-dp-storage/src/any_storage.rs:829-856 | any number of clients that read before any of them writes are all told that they created the key, which no atomic order of their swaps does |
| `AnyStorage.AnyStorage.IncrementValue` | commons/oprc-dp-storage/src/any_storage.rs:858-884 | alone, a missing value counts as zero and eight bytes as a little-endian number; the sum modulo 2^64 is stored and returned; any other value is refused and kept: the two steps of an increment |
| `Increment.Conservation` | commons/oprc-dp-storage/src/any_storage.rs:858-884 | after any interleaving of increments the counter is the initial value plus everything added minus everything that others added between the two steps of some increment, modulo 2^64 |
| `Increment.NothingLostIff` | commons/oprc-dp-storage/src/any_storage.rs:858-884 | the total is right if and only if those losses cancel modulo 2^64 |
| `Increment.RightIffUndisturbed` | commons/oprc-dp-storage/src/any_storage.rs:858-884 | from a counter nobody is incrementing, for positive increments whose sum fits 64 bits, the final value is right if and only if every write step finds the value its read step saw |
| `Increment.UndisturbedLosesNothing` | commons/oprc-dp-storage/src/any_storage.rs:858-884 | nothing is lost when every write finds the value its read saw |
| `Increment.OneOfTwoIsLost` | commons/oprc-dp-storage/src/any_storage.rs:858-884 | two overlapping increments of a missing counter leave 1 |
| `AnyStorage.AnyStorage.CreateSnapshot` | commons/oprc-dp-storage/src/any_storage.rs:489-518 | the snapshot's entry count and byte total are those of the map |
| `AnyStorage.AnyStorage.InstallFromStream` | commons/oprc-dp-storage/src/any_storage.rs:664-684 | a stream failing at item i leaves exactly what installing its first i pairs gives, and reports it |
| `AnyStorage.AnyStorage.RestoreFromSnapshot` | commons/oprc-dp-storage/src/any_storage.rs:607-614 | whatever has happened since, restoring yields exactly the map at snapshot time |
| `AnyStorage.EstimateSnapshotSize` | commons/oprc-dp-storage/src/any_storage.rs:622-629 | the estimate is the summed key and value lengths |
| `Snapshot.RestoreIsExact` | commons/oprc-dp-storage/src/any_storage.rs:489-518 | installing what was taken reproduces the map; count and bytes are the map's own and agree with the estimate |
| `Snapshot.ParseSerialized` | data-plane/oprc-odgm/src/replication/raft/raft_snapshot.rs:168-180 | reading the streamed form of pairs returns them in order up to the first empty key, which reads as the end |
| `Snapshot.TransferIsExact` | data-plane/oprc-odgm/src/replication/raft/raft_snapshot.rs:255-405 | a snapshot received in full and then read reproduces the map if and only if it does not hold the empty key and all its lengths fit 32 bits; with an empty key the receiver ends up empty |
| `Stats.AtomicStats.RecordPut` | commons/oprc-dp-storage/src/atomic_stats.rs:24-37 | adds key and value size, and counts an entry unless told of an update; an update's old size stays in |
| `Stats.AtomicStats.RecordPutWithOldSize` | commons/oprc-dp-storage/src/atomic_stats.rs:41-68 | adds a new entry's sizes, or the difference of an update's |
| `Stats.AtomicStats.RecordDelete` | commons/oprc-dp-storage/src/atomic_stats.rs:72-78 | subtracts one entry and its sizes, wrapping |
| `Stats.AtomicStats.RecordDeleteBatch` | commons/oprc-dp-storage/src/atomic_stats.rs:82-87 | subtracts many entries and their sizes, wrapping |
| `Stats.RecordedAllSum` | commons/oprc-dp-storage/src/atomic_stats.rs:24-87 | any sequence of records is one wrapping addition of its summed deltas |
| `Stats.OrderIrrelevant` | commons/oprc-dp-storage/src/atomic_stats.rs:41-87 | the same records in any order give the same counters |
| `MemoryStorage.MemoryStorage.PutValue` | commons/oprc-dp-storage/src/backends/memory.rs:71-98 | the map and the counters after a put, and whether the key existed |
| `MemoryStorage.MemoryStorage.PutValueWithReturn` | commons/oprc-dp-storage/src/backends/memory.rs:100-130 | the map and the counters after a put, and the old value |
| `MemoryStorage.MemoryStorage.DeleteKey` | commons/oprc-dp-storage/src/backends/memory.rs:132-143 | the map and the counters after a delete; nothing when the key is missing |
| `MemoryStorage.MemoryStorage.DeleteKeyRange` | commons/oprc-dp-storage/src/backends/memory.rs:145-195 | the loop removes exactly the range, counts it, and records it as one batch |
| `MemoryStorage.ContentsAfterRun` | commons/oprc-dp-storage/src/backends/memory.rs:71-195 | after any run from an empty backend each key holds what was last put there and not deleted since, by key or by range |
| `MemoryStorage.CountersAfterRun` | commons/oprc-dp-storage/src/backends/memory.rs:71-195 | after any run of mutations the entry counter is the map's size modulo 2^64, and the byte counter is right if and only if the sizes leaked by overwriting puts add up to a multiple of 2^64 |
| `MemoryStorage.OverwriteLeaks` | commons/oprc-dp-storage/src/backends/memory.rs:71-98 | two plain puts to one key leave one entry and the first one's bytes counted |
| `MemoryStorage.NoOverwriteNoLeak` | commons/oprc-dp-storage/src/atomic_stats.rs:41-87 | runs that only use the other mutations leak nothing, so both counters are exact |
| `Metadata.ToBytes` | data-plane/oprc-odgm/src/granular_key.rs:80-93 | the loop writes the encoding that the round trip is about, lengths cut to sixteen bits |
| `Metadata.FromBytes` | data-plane/oprc-odgm/src/granular_key.rs:96-147 | the loop with its moving position never reads out of bounds, on any input, and returns what `Decode` says |
| `LittleEndian.LastWeighsMost` | data-plane/oprc-odgm/src/granular_key.rs:80-147 | the byte order of all numbers read and written: byte number i weighs 256 to the power i |
| `Metadata.DecodeEncode` | data-plane/oprc-odgm/src/granular_key.rs:80-147 | encoded metadata, followed by anything, decodes to itself when count and lengths are at most 65535 |
| `Metadata.RoundTripIffFits` | data-plane/oprc-odgm/src/granular_key.rs:80-147 | the round trip holds if and only if they are |
| `Metadata.DecodesIff` | data-plane/oprc-odgm/src/granular_key.rs:96-147 | which bytes decode, and to what: exactly those that start with the encoding of that metadata up to the value of the tombstone byte |
| `Metadata.AcceptedReencodes` | data-plane/oprc-odgm/src/granular_key.rs:96-147 | whatever is accepted is proper metadata that fits, and re-encodes to a prefix of the input except for the tombstone byte: to a prefix of the input itself if and only if that byte is 0 or 1 |
| `Metadata.LongKeyIsCut` | data-plane/oprc-odgm/src/granular_key.rs:86-91 | a 65536-byte attribute key is written with length 0 |
| `ControlPlaneStores.EtcdStorage.StorePackage` | commons/oprc-cp-storage/src/etcd/mod.rs:127-134 | writes one key of the flat map, keeping records under their own keys |
| `ControlPlaneStores.EtcdStorage.DeletePackage` | commons/oprc-cp-storage/src/etcd/mod.rs:178-187 | removes that key only |
| `ControlPlaneStores.EtcdStorage.ListPackages` | commons/oprc-cp-storage/src/etcd/mod.rs:156-176 | the loop returns every package once, whatever the filter, or fails if a record does not decode |
| `ControlPlaneStores.EtcdStorage.StoreDeployment` | commons/oprc-cp-storage/src/etcd/mod.rs:217-229 | writes one key of the flat map, keeping records under their own keys |
| `ControlPlaneStores.EtcdStorage.DeleteDeployment` | commons/oprc-cp-storage/src/etcd/mod.rs:297-305 | removes that key only |
| `ControlPlaneStores.DeploymentMatches` | commons/oprc-cp-storage/src/memory/mod.rs:148-163 | the tests in turn accept exactly a deployment of the wanted package, of the wanted class and with the wanted environment among its targets, each where it is given |
| `ControlPlaneStores.PackageMatches` | commons/oprc-cp-storage/src/memory/mod.rs:71-94 | the tests in turn, with the loop over wanted tags, accept exactly what passes every given part of the filter |
| `ControlPlaneStores.EtcdStorage.Decide` | commons/oprc-cp-storage/src/etcd/mod.rs:262-291 | a listed key is pushed exactly when it is not nested, decodes, and is of the wanted package, class and environment |
| `ControlPlaneStores.EtcdStorage.ListDeployments` | commons/oprc-cp-storage/src/etcd/mod.rs:250-295 | the loop returns, as a multiset, every deployment that passes once; which these are after any history, `ControlPlaneHistory.EtcdAnswers` says |
| `ControlPlaneStores.EtcdStorage.SaveClusterMapping` | commons/oprc-cp-storage/src/etcd/mod.rs:318-335 | writes one key below the deployment's mapping prefix |
| `ControlPlaneStores.EtcdStorage.GetClusterMappings` | commons/oprc-cp-storage/src/etcd/mod.rs:337-362 | the loop strips the prefix and returns exactly the clusters below it |
| `ControlPlaneStores.EtcdStorage.RemoveClusterMappings` | commons/oprc-cp-storage/src/etcd/mod.rs:364-376 | removes exactly the keys with the prefix |
| `ControlPlaneStores.MemoryStores.StorePackage` | commons/oprc-cp-storage/src/memory/mod.rs:53-57 | the maps after storing |
| `ControlPlaneStores.MemoryStores.DeletePackage` | commons/oprc-cp-storage/src/memory/mod.rs:101-105 | the maps after deleting |
| `ControlPlaneStores.MemoryStores.ListPackages` | commons/oprc-cp-storage/src/memory/mod.rs:64-99 | as a multiset, every package that passes the filter once; which these are after any history, `ControlPlaneHistory.MemoryAnswers` says |
| `ControlPlaneStores.MemoryStores.StoreDeployment` | commons/oprc-cp-storage/src/memory/mod.rs:123-130 | the maps after storing |
| `ControlPlaneStores.MemoryStores.DeleteDeployment` | commons/oprc-cp-storage/src/memory/mod.rs:171-175 | the maps after deleting; mappings stay |
| `ControlPlaneStores.MemoryStores.ListDeployments` | commons/oprc-cp-storage/src/memory/mod.rs:140-169 | as a multiset, every deployment that passes the filter once; which these are after any history, `ControlPlaneHistory.MemoryAnswers` says |
| `ControlPlaneStores.MemoryStores.SaveClusterMapping` | commons/oprc-cp-storage/src/memory/mod.rs:182-194 | adds to the deployment's mappings, creating them if need be |
| `ControlPlaneStores.MemoryStores.GetClusterMappings` | commons/oprc-cp-storage/src/memory/mod.rs:196-202 | the deployment's mappings, or none |
| `ControlPlaneStores.MemoryStores.RemoveClusterMappings` | commons/oprc-cp-storage/src/memory/mod.rs:204-211 | forgets them |
| `FlatStore.OwnerUnique` | commons/oprc-cp-storage/src/etcd/mod.rs:117-122 | among slash-free keys a mapping prefix covers the mappings of its own deployment only, and mapping keys are injective |
| `FlatStore.StepKeeps` | commons/oprc-cp-storage/src/etcd/mod.rs:127-376 | every operation keeps the flat map standing for the typed maps |
| `FlatStore.StepAnswers` | commons/oprc-cp-storage/src/etcd/mod.rs:127-376 | every operation answers as the in-memory store does, except that a package listing agrees if and only if its filter would pass every stored package |
| `FlatStore.RunSimulates` | commons/oprc-cp-storage/src/etcd/mod.rs:109-376 | over every run with slash-free deployment keys the flat store stands for the in-memory store, and all answers are equal if and only if no package filter turned anything away |
| `FlatStore.MappingListing` | commons/oprc-cp-storage/src/etcd/mod.rs:337-362 | reading below a deployment's mapping prefix gives exactly that deployment's mappings |
| `FlatStore.DeploymentListing` | commons/oprc-cp-storage/src/etcd/mod.rs:250-295 | mappings never appear as deployments: the listings are equal |
| `FlatStore.RunKeepsForeign` | commons/oprc-cp-storage/src/etcd/mod.rs:109-122 | no run touches a key outside the two areas |
| `FlatStore.ListedIffSlashFree` | commons/oprc-cp-storage/src/etcd/mod.rs:262-272 | in every state that stands for the in-memory store, a deployment just stored is listed if and only if its key is slash-free; the in-memory store always lists it |
| `FlatStore.SlashKeyLeaks` | commons/oprc-cp-storage/src/etcd/mod.rs:113-122 | in any state, a deployment stored under `k/clusters/c` is read back as a cluster mapping of `k`, its JSON as the id |
| `ControlPlaneHistory.RunRemembers` | commons/oprc-cp-storage/src/memory/mod.rs:53-211 | after any run from the empty store each package, deployment and mapping is what the run last stored there and has not deleted since |
| `ControlPlaneHistory.MemoryAnswers` | commons/oprc-cp-storage/src/memory/mod.rs:53-211 | every answer after any run, from the operations alone: reads give what was last stored; a deployment listing has exactly the stored deployments of the wanted package, class and environment; a package listing exactly those whose name has the wanted part in it, by the wanted author, with one of the wanted tags |
| `ControlPlaneHistory.EtcdAnswers` | commons/oprc-cp-storage/src/etcd/mod.rs:109-376 | the same of etcd, over every run with slash-free deployment keys, but a package listing has every package |
| `ControlPlaneHistory.EtcdReads` | commons/oprc-cp-storage/src/etcd/mod.rs:109-295 | where records are kept; and a record that does not decode is an error to read but is passed over by a listing of deployments |
| `ObjectEvents.MergeTargets` | commons/oprc-grpc/src/lib.rs:192-196 | the push-unless-present loop is the list merge of the laws |
| `ObjectEvents.ObjectEvent.MergeFrom` | commons/oprc-grpc/src/lib.rs:189-226 | the nested loops over both trigger maps give the merge of the laws, in place |
| `ObjectEvents.MergeLaws` | commons/oprc-grpc/src/lib.rs:189-226 | merging is exactly associative and idempotent with the empty event as identity, lists included |
| `ObjectEvents.MergeIsUnion` | commons/oprc-grpc/src/lib.rs:189-226 | on keys and target sets it is union, hence commutative |
| `ObjectEvents.MergeKeepsOrder` | commons/oprc-grpc/src/lib.rs:189-226 | in every list the old targets keep their places and the new ones follow in their own order |
| `ObjectEvents.FoldIgnoresOrder` | commons/oprc-grpc/src/lib.rs:189-226 | folding the same events in any order, with any repetition, gives the same triggers |
| `ObjectEvents.MergeKeepsDuplicateFree` | commons/oprc-grpc/src/lib.rs:189-226 | duplicate-free events merge to duplicate-free events |
| `SdkDispatch.LoadFields` | tools/oaas-sdk-ts/src/state.ts:47-79 | the load gives each declared field the value its stored text parses to, or leaves the default, remembers its text, and stops at the first that cannot be serialised |
| `SdkDispatch.SaveChangedFields` | tools/oaas-sdk-ts/src/state.ts:86-109 | the save writes exactly the fields whose text changed, and nothing at all when one cannot be serialised |
| `SdkDispatch.HandleInvoke` | tools/oaas-sdk-ts/src/dispatch.ts:118-200 | the whole dispatch, with its five kinds of response, is the invocation function that the results are about; what that answers, `SdkState.RefusedIff` and `SdkState.AnswerIs` say |
| `SdkDispatch.HostObjectProxy.GetMany` | data-plane/oprc-wasm/src/object_host.rs:246-277 | returns exactly the entries that exist among the keys asked for |
| `SdkState.LoadAfterSave` | tools/oaas-sdk-ts/src/state.ts:47-109 | a load after a save sees each field's settled value: unchanged text keeps the loaded value, new text is what it parses to, no text resets to the default |
| `SdkState.RefusedIff` | tools/oaas-sdk-ts/src/dispatch.ts:140-166 | a request is refused if and only if there is no such method or a non-empty payload does not parse, and then changes nothing |
| `SdkState.AnswerIs` | tools/oaas-sdk-ts/src/dispatch.ts:70-200 | what every other call answers, in terms of the method and JSON alone: the method runs on the loaded fields (on defaults when stateless) with the parsed payload; the answer is the text of the result, nothing for no result, or an error of the kind that was thrown, by the first field that cannot be read, by the method, by the first field that cannot be written, or by the result |
| `SdkState.RunMatches` | tools/oaas-sdk-ts/src/dispatch.ts:118-200 | every sequence of invocations, from any stored entries, answers as one long-lived object that rolls back on errors and ignores stateless calls, and leaves what that object holds |
| `SdkState.ShimIsTransparent` | tools/oaas-sdk-ts/src/dispatch.ts:118-200 | when stored fields, payloads and what methods leave are JSON values, that object is the plain one its author thinks of: same responses, same fields on the next load, same other entries |
| `SdkState.OnlyChangesWritten` | tools/oaas-sdk-ts/src/state.ts:92-108 | a declared field is written if and only if a stateful method returned, all fields serialise and this one's text changed; it then holds the new text |
| `SdkState.ErrorKeepsFieldsIff` | tools/oaas-sdk-ts/src/dispatch.ts:168-199 | on an error response the next load sees the fields as before, if and only if it is not that the result could not be serialised after a field had changed to text that reads back differently |
| `SdkExample.ErrorButSaved` | tools/oaas-sdk-ts/src/dispatch.ts:181-199 | a service and a call that answers with a system error and leaves a field changed |
| `SdkExample.GetAnswers` | tools/oaas-sdk-ts/src/dispatch.ts:118-200 | a reading method of that service, on an object with nothing stored, answers with the text of the default |
| `SdkExample.ServiceIsWellBehaved` | tools/oaas-sdk-ts/src/dispatch.ts:118-200 | the assumptions of these results hold of a service with a reading method, one that stores its argument as it is, and one whose result cannot be serialised, with values that are not JSON |
| `Assignments.ValidateAssignments` | control-plane/oprc-crm/src/collections.rs:124-159 | the loops with their growing set accept exactly positive counts, matching lengths, primaries among their own shards and no shard id twice anywhere |
| `Assignments.ValidIff` | control-plane/oprc-crm/src/collections.rs:124-159 | what is accepted, place by place: positive counts, one assignment per partition, as many replicas and shard ids as replicas are wanted, the primary one of its own ids, and no id at two places anywhere |
| `Assignments.ValidShards` | control-plane/oprc-crm/src/collections.rs:124-159 | acceptance gives exactly partitions times replicas different shards, each in one partition |
| `Assignments.BuildAssignments` | control-plane/oprc-crm/src/collections.rs:92-111 | a built request carries all of a valid list, or no assignments |
| `NetSim.NetworkSimState.constructor` | commons/oprc-netsim/src/state.rs:40-60 | the nested loops make a live, undelayed link for every two environments |
| `NetSim.LinkKeyPair` | commons/oprc-netsim/src/state.rs:24-30 | link keys are equal exactly for the same unordered pair |
| `NetSim.FreshIsWellFormed` | commons/oprc-netsim/src/state.rs:40-60 | with distinct names there is exactly one entry per unordered pair, under its own ordered key |
| `NetSim.KnownIff` | commons/oprc-netsim/src/state.rs:192-252 | there is a link between two names if and only if they are two different environments, so exactly then a command on it is not refused |
| `NetSim.ApplyKeepsForm` | commons/oprc-netsim/src/state.rs:192-334 | every command, found or refused, keeps it so |
| `NetSim.NetworkSimState.Partition` | commons/oprc-netsim/src/state.rs:192-211 | cuts one link and sets its delay if the request has a body; refused exactly when the names are not two different environments |
| `NetSim.NetworkSimState.Heal` | commons/oprc-netsim/src/state.rs:213-229 | restores one link without delay; refused exactly when the names are not two different environments |
| `NetSim.NetworkSimState.SetLinkLatency` | commons/oprc-netsim/src/state.rs:236-252 | sets one link's delay, live or not; refused exactly when the names are not two different environments |
| `NetSim.NetworkSimState.SwitchEnv` | commons/oprc-netsim/src/state.rs:254-307 | partitions or heals exactly one environment's links and reports exactly the other environments; refused for an unknown one |
| `NetSim.NetworkSimState.SwitchAll` | commons/oprc-netsim/src/state.rs:309-334 | partitions or heals every link |
| `NetSim.RunMeaning` | commons/oprc-netsim/src/state.rs:40-334 | after any run of commands each pair is up if and only if no partition (of the link, of an end, or of everything) covered it since the last heal that did, with the delay last given to it |
| `NetSim.CheckerMeaning` | commons/oprc-netsim/src/state.rs:78-97 | so the checker is symmetric, always up to oneself, never to an unknown environment, and its delay is that of live links only |
| `ObjectRef.PrintParse` | data-plane/oprc-wasm/src/object_host.rs:672-714 | in the host, printing then parsing returns the reference if and only if class and id are non-empty, the class is slash-free and the partition fits 32 bits |
| `ObjectRef.HostParseIff` | data-plane/oprc-wasm/src/object_host.rs:672-714 | which strings the host accepts, and as what: a non-empty slash-free class, a slash, a numeral within 32 bits with an optional plus sign and leading zeros, a slash, a non-empty id |
| `ObjectRef.SdkPrintParse` | tools/oaas-sdk-ts/src/object_ref.ts:61-119 | in the SDK, for every number as partition, if and only if class and id are non-empty, the class is slash-free and the number prints without exponent |
| `ObjectRef.SdkParseIff` | tools/oaas-sdk-ts/src/object_ref.ts:61-94 | which strings the SDK accepts, and as what: a non-empty slash-free class, a slash, white space, an optional sign, digits and any slash-free text, a slash, a non-empty id |
| `ObjectRef.LayoutReads` | tools/oaas-sdk-ts/src/object_ref.ts:86-94 | a number is read from white space, an optional sign, digits and anything that does not start with a digit |
| `ObjectRef.ReadsLayout` | tools/oaas-sdk-ts/src/object_ref.ts:86-94 | and from nothing else |
| `ObjectRef.LargeNumbersCollapse` | tools/oaas-sdk-ts/src/object_ref.ts:86-119 | a partition from 10^21 on comes back as a single digit |
| `ObjectRef.HostImpliesSdk` | tools/oaas-sdk-ts/src/object_ref.ts:61-94 | every string the host accepts, the SDK accepts with the same result |
| `ObjectRef.HostIffStrictSdk` | data-plane/oprc-wasm/src/object_host.rs:672-714 | the host accepts exactly what the SDK accepts with a plain 32-bit numeral |
| `ObjectRef.LargePartitionsDisagree` | tools/oaas-sdk-ts/src/object_ref.ts:86-94 | a partition over 32 bits that prints without exponent is read back by the SDK and refused by the host |
| `ObjectRef.TrailingTextDisagrees` | tools/oaas-sdk-ts/src/object_ref.ts:86-94 | any text after the digits of a partition within 53 bits is ignored by the SDK and refused by the host |
| `ObjectRef.HostTakesPlusAndZeros` | data-plane/oprc-wasm/src/object_host.rs:702-707 | a numeral within 32 bits is read with any number of leading zeros and with or without a plus sign |
| `ObjectRef.ParseU32Iff` | data-plane/oprc-wasm/src/object_host.rs:702-707 | the host reads exactly the decimal forms of numbers up to 4294967295, with any leading zeros and an optional plus sign |
| `ObjectRef.ParsePrint` | data-plane/oprc-wasm/src/object_host.rs:672-714 | an accepted string prints back as itself if and only if its partition has no plus sign and no leading zeros |
| `ObjectRef.NumericKeyRoundTrip` | data-plane/oprc-odgm/src/granular_key.rs:27-36 | numeric entry keys come back from their string form exactly within 32 bits |
| `ProxyHost.ObjectWasmHostState.CreateProxy` | data-plane/oprc-wasm/src/object_host.rs:138-147 | a new handle for the reference, local if and only if class and partition are both the shard's own |
| `ProxyHost.ObjectWasmHostState.DropProxy` | data-plane/oprc-wasm/src/object_host.rs:620-626 | forgets a live handle, and only that |
| `ProxyHost.ObjectWasmHostState.InvokeProxy` | data-plane/oprc-wasm/src/object_host.rs:569-617 | the guard, the raised depth, and the early return that leaves it raised |
| `ProxyHost.RunInvariant` | data-plane/oprc-wasm/src/object_host.rs:569-626 | after every run each live handle stands for its reference with its locality, and the depth is the smaller of the maximum and the number of remote invocations made with no remote proxy |
| `ProxyHost.InvokeAnswers` | data-plane/oprc-wasm/src/object_host.rs:122-147 | after every run, from the operations alone: a handle is local if and only if class and partition of its reference are the shard's; invoking it is refused at the maximum depth, fails when it is remote with no remote proxy, and is made otherwise; a handle that is not live fails, on invoking and on dropping |
| `ProxyHost.StrandedNext` | data-plane/oprc-wasm/src/object_host.rs:569-617 | the count of stranded invocations grows by exactly the invocations of live handles of another class or partition with no remote proxy |
| `ProxyHost.InvokePassesIff` | data-plane/oprc-wasm/src/object_host.rs:579-586 | a live handle is let through if and only if fewer than the maximum have been stranded that way |
| `ProxyHost.RefusalIsPermanent` | data-plane/oprc-wasm/src/object_host.rs:579-617 | once the guard refuses it refuses every live handle ever after, local ones included; with a remote proxy it never does |
| `Pool.SessionPool.GetSession` | commons/oprc-zenoh/src/pool.rs:63-128 | counting, growth, port choice and rotation of one call, failures included |
| `Pool.RunHolds` | commons/oprc-zenoh/src/pool.rs:63-128 | after any run the pool holds the smaller of successful opens and maximum |
| `Pool.PortsAre` | commons/oprc-zenoh/src/pool.rs:72-83 | session i listens on the base port plus i cut to sixteen bits, at most 65535, or on 0 without a base port |
| `Pool.AnswerIs` | commons/oprc-zenoh/src/pool.rs:63-128 | the reply to each call of any run, from the opens alone: a failed open below the maximum fails the call, and otherwise call k gets session k + 1 modulo the sessions open by then (none at all with a maximum of zero) |
| `Pool.GrowingGivesFirst` | commons/oprc-zenoh/src/pool.rs:66-127 | while the pool grows every call gets the first session |
| `Pool.RotationIsFair` | commons/oprc-zenoh/src/pool.rs:66-127 | once full, any maximum-many consecutive calls return each session exactly once |
| `Pool.FullAfterMax` | commons/oprc-zenoh/src/pool.rs:66-68 | which holds after the first maximum-many successful calls |
| `Pool.PortsDistinctIff` | commons/oprc-zenoh/src/pool.rs:72-83 | listen ports differ if and only if there is at most one session, or a base port from which all stay within sixteen bits |
| `MstReplication.HandleRequest` | data-plane/oprc-odgm/src/replication/mst/mst_network.rs:54-91 | the loops answer with exactly the entries whose key is between the bounds of some requested range, bounds included, as they are stored |
| `MstReplication.MergeLoop` | data-plane/oprc-odgm/src/replication/mst/mst_network.rs:285-316 | the loop merges each received item and leaves all other entries |
| `MstReplication.Replica.SetRaw` | data-plane/oprc-odgm/src/replication/mst/mst_layer.rs:306-338 | a local write is merged as a received item would be, with the shard id in the place of the node id |
| `MstReplication.MergeRepresents` | data-plane/oprc-odgm/src/replication/mst/config.rs:17-36 | merging two stores gives the winners of all their writes |
| `MstReplication.RunAgrees` | data-plane/oprc-odgm/src/replication/mst/mst_network.rs:178-343 | under last writer wins, over every run of writes, deletes, fetches and merges, late or repeated, each replica holds winners of exactly the writes it has heard of and not deleted since |
| `MstReplication.SameWritesSameStore` | data-plane/oprc-odgm/src/replication/mst/mst_network.rs:178-343 | under last writer wins, replicas that have heard of the same writes are equal, unless timestamps tie |
| `MstReplication.ExchangeConverges` | data-plane/oprc-odgm/src/replication/mst/mst_network.rs:178-343 | under last writer wins, from any reachable state one exchange in both directions makes two replicas equal, unless timestamps tie |
| `MstReplication.ExchangeAgreesIff` | data-plane/oprc-odgm/src/replication/mst/config.rs:27-34 | two entries exchanged one after the other agree if and only if they are equal, their timestamps differ, or not both node ids are odd |
| `MstReplication.CrossingAgreesIff` | data-plane/oprc-odgm/src/replication/mst/config.rs:27-34 | exchanged at the same time, if and only if they are equal, their timestamps differ, or the parities differ |
| `MstReplication.CrossingNeverSettles` | data-plane/oprc-odgm/src/shard/builder.rs:772-779 | under the default policy crossing exchanges swap two different entries for ever; a tie on ids of one parity never settles either |
| `MstReplication.DefaultTakesLast` | data-plane/oprc-odgm/src/shard/builder.rs:772-779 | under the default merge every replica holds, after every run, the entry found by tracing back to the last write, delete or answer that reached it, whatever the timestamps |
| `MstReplication.LateAnswerReplaces` | data-plane/oprc-odgm/src/shard/builder.rs:772-779 | under the default merge an answer pulled after a newer write replaces it, however much happened since the fetch, as long as the answer had not been merged |
| `MstReplication.DefaultExchange` | data-plane/oprc-odgm/src/shard/builder.rs:772-779 | under the default merge one exchange, one after the other, leaves both replicas with the entries of both, those of the replica fetched first winning |
| `MstReplication.PullKeepsIff` | data-plane/oprc-odgm/src/replication/mst/mst_network.rs:285-316 | under either merge, exactly when a pull keeps the entry a node has |
| `MstReplication.TimeNeverDrops` | data-plane/oprc-odgm/src/replication/mst/mst_network.rs:285-316 | under last writer wins no run of steps but a delete makes an entry older |
| `MstReplication.DeleteIsFinalIff` | data-plane/oprc-odgm/src/replication/mst/mst_layer.rs:389-403 | under either merge a delete is final (nothing but a new write brings the key back to the node) if and only if no other replica and no answer not yet merged has the key |

## Left out

- Storage backends other than the ordered map, their native snapshot handles, transactions and per-backend dispatch: pure delegation, or not part of this model.
- `exists`, `flush`, `reset`, `set_counts`, time-to-live puts and the read-only counter accessors. Overflow of an increment wraps here, as in release builds; debug builds panic.
- The Small/Large representation of stored values: a stored value is its bytes.
- The single-lookup reads of the control-plane stores (get and exists) have no methods of their own; they are operations of the step functions and covered by `FlatStore.StepAnswers`.
- Writing entries with versions and events (single and batched), listing of objects, and event dispatch: they call the modelled storage operations one by one.
- Raft consensus and its log: only the stream that carries a snapshot is modelled, as it is read after it has been received in full; installing straight from a local reader, where reads can be partial, is not.
- The Merkle search tree and its page diff: a fetch asks for any list of key ranges, so every choice of the diff is covered; that the diff finds all differences is not shown, and where a result says that a key can come back it means by some fetch, not by one the diff makes at once.
- JSON, postcard and the timestamp extractor are parameters; of JSON the SDK results ask that text parses and that empty text does not. That values come back from their own text is assumed only in `SdkState.ShimIsTransparent`, of the values in use; a stored `1e400`, which parses to infinity, is not one.
- Error message texts, HTTP and WIT bindings, logging, and the global registry of the SDK.
- SDK methods that write declared fields through the proxy, or keep undeclared properties on the instance, are outside the long-lived-object results by assumption (`SdkState.WellBehaved`).
- Fields are values: two fields that share one object, which the shim's fresh instances separate, cannot be expressed. Host failures of reading or writing fields, which the dispatch reports as errors, are not modelled.
- The SDK's numbers are a parameter of the reference results: rounding and printing are only asked to be exact up to 2^53 - 1, to print back below 10^21, and to use an exponent from there on; negative zero is read as zero.
- Remote calls of proxies beyond whether a remote proxy is there; local replacement of a whole object (`set_all`), which stores only its first entry under `_raw`; the capacity of the handle table.
- Host invocations run one after the other, as the exclusive borrow of the host state enforces; no nesting is modelled.
- The session pool's shared mode, its process-wide port list and automatic peers; the call counter is unbounded.
- With a maximum of zero sessions the pool divides by zero and panics; the model gives that call a reply of its own, `Empty`.
- URL normalisation and function routes of a collection request.
- Concurrency beyond what is stated: paging between changes, compare-and-swap steps, counter records in any order, and replica exchanges are modelled; all other operations are atomic steps.
- AnyStorage.AnyStorage.ScanRangePaginated: a start after the end is excluded, because the ordered map panics there.
- EntryList.ListEntries: stores and cursors with a key whose length field overflows are excluded, because the parser panics there; `KeyFault.FaultIff` says which these are.
- EntryListProof.CountEntries: stores with such keys are excluded likewise.
