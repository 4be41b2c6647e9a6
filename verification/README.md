# VedDB core: a verified model

VedDB is a document and key-value database. This project models its hand-written stateful
structures in Dafny and proves that each agrees with the simple mathematical object it stands for.

| modules | part of the system |
|---|---|
| `KvSpec`, `Probing`, `HashTable`, `KvStore` | the open-addressing hash table in shared memory and the sharded store: one finite map |
| `BumpAllocator`, `Arena`, `ArenaRuns`, `ArenaBuffer` | the arena: bump pointer under all interleavings, free lists in sequential runs |
| `TableOnArena`, `ArenaTable` | the table's records in the arena's blocks; table and arena together, in every run one map |
| `IndexKeys`, `BTreeIndex`, `IndexManager`, `IndexLaws` | secondary indexes against a scan of the documents, and what lookups answer in terms of the documents alone |
| `KeyRotation` | key rotation with every state a crash can leave on disk |
| `Eviction`, `CacheSpec`, `Cache` | the TTL/LRU/LFU cache against the unbounded map it approximates |
| `WalReplay`, `WalFiles` | point-in-time recovery from a snapshot and the write-ahead log |
| `Documents` | nested path reads and writes |
| `Grouping`, `GroupLaws` | the `$group` stage |
| `IndexSelector`, `Protocol` | index selection, the wire format |
| `Wrappers`, `Memory`, `Endian`, `Text`, `Sorting` | shared vocabulary |

`dafny verify dfyconfig.toml` checks all of it.

Code that updates state in place is modelled by classes and methods whose contracts tie the new
state to the old one; code that computes is modelled by functions. Things the code asks of its
surroundings are parameters: the hash function, the allocator's answer (`Memory.Grant`; module
`ArenaTable` puts the arena itself in its place), clock
readings, the iteration order of hash maps, the reader of a log file, the effect of applying an
operation, and which steps of a key rotation fail (`KeyRotation.Faults`).

Where a promise does not hold of the code, the code is modelled as it is, and the exact condition
under which the promise holds is proved:

- A probe of the hash table ends if and only if its key is present or an EMPTY slot is left
  (`Probing.ProbeStopsIff`). Removals never give an EMPTY slot back, so inserting and removing one
  key over and over leads to an empty table in which no probe ends (`HashTable.Churn`).
- A growing write frees the old block before it allocates. If the allocation then fails, the table
  still stands if and only if the record's size is not recycled or the record starts with the very
  bytes of the free node; unless its size is not recycled its block heads a free list while the
  table still refers to it (`TableOnArena.FailedGrowthOnArenaIff`). `TableOnArena.FailedGrowthHappens`
  is a run that loses the table. In general a table survives changes to one record's block if and
  only if the block reads the same (`Probing.SurvivesIffSame`); against an arbitrary allocator within
  the contract it survives if and only if the freed block was empty (`Probing.FailedGrowthIff`).
- All clients of the arena that use a given set of request sizes are safe if and only if every
  recycled size takes up the 16 bytes of a free node and the room of every other size of its class;
  with alignments of 8, as the hash table uses them, a block takes up a multiple of 8
  (`ArenaRuns.SafeIffDisciplined`). This holds although blocks may be given back with less than
  their size, as the hash table does after a value has shrunk.
- Bump requests up to a size, with a power of two as alignment, are safe in every run if and only if
  the arena's limit can be rounded up to the alignment below 2^64 and stays there with the size added
  (`BumpAllocator.SafeIffNoWrap`). The alignment mask aligns if and only if the alignment is a power
  of two (`BumpAllocator.MaskAlignsIff`).
- A rotation that fails after it replaced the key blocks the next one if and only if it had saved
  that re-encryption begins (`KeyRotation.Scheduler.RotateKey`). After a crash, of the documents the
  old key opened exactly those already re-encrypted can be opened with the keys on disk
  (`KeyRotation.CrashRecoverableIff`); a completed resumption leaves readable exactly the documents
  done before the crash (`KeyRotation.ResumeKeepsOnlyWhatWasDone`), and after any number of crashed
  and completed resumptions exactly the documents that every one of them went through are readable
  (`KeyRotation.AttemptsKeepIff`).
- A cached entry with a TTL is in the expiration heap if and only if the call that set it did not
  evict the key's own old value while making room, which the entries ranked before that value
  decide, up to ties (`Cache.CacheLayer.TrackedByRank`); `Cache.LosesTrack` reaches an entry that no
  sweep will drop. Sweeps drop an entry before its expiry if and only if the heap has a sooner entry of
  its key (`Cache.SweptEarlyIff`): one that an overwritten value (`Cache.EarlyAfterSetIff`,
  `Cache.OverwrittenSweptEarly`) or a refused call (`Cache.EarlyAfterRefusalIff`,
  `Cache.RefusalSweptEarly`) left there.
- LRU and TTL eviction compare whole seconds: they agree with the documented order except where
  two scores coincide (`Eviction.AheadIsMeant`, `Eviction.SubSecondAccessesTie`).
- Replay succeeds if and only if everything before the first entry past the target is readable, in
  order, above the backup, and applies (`WalReplay.ReplaySucceedsIff`); it has then applied every
  entry it should if and only if none of them follows that first one
  (`WalReplay.SuccessIsCompleteIff`). Recovery from a directory is complete if and only if, besides,
  no file numbered at most the backup's sequence holds such an entry
  (`WalFiles.RecoveryCompleteIff`, `WalFiles.SkippedFileIsLost`). Files are sorted by path, not by
  number as the comment at veddb-core/src/backup.rs:413 says; the two agree if and only if every
  smaller number has the earlier name (`WalFiles.SortsByNumberIff`), which is a matter of the
  numerals' common length (`WalFiles.InStepIff`, `WalFiles.UnpaddedNamesMissort`). The log's
  own writer uses the extension `log` (veddb-core/src/wal/writer.rs:222) and recovery looks for `wal`
  (`WalFiles.WriterFilesAreNotFound`).
- A buffer is neither parsed nor refused if and only if the two 32-bit lengths of its header
  overflow and the buffer holds their wrapped sum but not the payload (`Protocol.PanicsIff`,
  `Protocol.BareHeaderPanics`).
- Creating an index keeps the indexes in agreement with the documents if and only if the new index
  has nothing to list (`IndexManager.Manager.CreateIndex`). Removing by a document keeps them so if
  and only if that document names the entry each index has (`IndexManager.Manager.RemoveDocument`).
  Inserting an id that is already stored keeps them so if and only if no index lists its old document
  (`BTreeIndex.InsertAgreesIff`, `IndexManager.Manager.InsertDocument`). The rollback of an insertion
  restores an index if and only if the document is not listed there, its id was not listed under the
  key, or the index is not unique and had that id last under the key
  (`BTreeIndex.RemoveUndoesInsertIff`); for an id that is not stored it always does.
- A document reports its size after every insert, removal and successful path write; a write
  through `get_mut` keeps that if and only if the sizes of the old and the new value agree
  (`Documents.Document.WriteThroughGetMut`). A document read back reports its size if and only if it has
  no field, or just a nameless one with an empty string or empty bytes (`Documents.Document.Stored`).
- A resumption starts at the document of its last checkpoint (`KeyRotation.CheckpointResumes`); if the
  scan does not meet that document, it re-encrypts nothing and reports success
  (`KeyRotation.LostCheckpointSkipsAll`).
- The output documents of `$group` name their groups if and only if no accumulator is called `_id` or
  there was no input (`GroupLaws.OutputNamesGroupIff`).

## Model

| member | source | states |
|---|---|---|
| KvSpec.VersionCountsCas | veddb-core/src/kv/hash_table.rs:206-403 | in every run a live key's version is one plus the successful CAS operations since its last fresh insertion, modulo 2^64 |
| KvSpec.CasWinsOnce | veddb-core/src/kv/hash_table.rs:340-403 | between two fresh insertions of a key the successful CAS operations have strictly increasing expected versions, below 2^64 |
| KvSpec.InsertStores | veddb-core/src/kv/hash_table.rs:194-285 | an insertion answered with success stores its value, keeps or starts the version and changes no other key; each refusal changes nothing, and when it is given |
| KvSpec.CasStores | veddb-core/src/kv/hash_table.rs:340-403 | so does a compare-and-swap: the value cut off at 32 bits of length, the next version modulo 2^64, each refusal and when it is given |
| KvSpec.RemoveForgets | veddb-core/src/kv/hash_table.rs:304-337 | a removal takes the key out, changes no other and answers the 32-bit size of its record |
| KvSpec.RunHoldsLastWrite | veddb-core/src/kv/hash_table.rs:194-403 | in every run a key is there exactly if some write of it succeeded and it was not removed since, and its value is that of the last such write |
| Probing.ProbeStopsIff | veddb-core/src/kv/hash_table.rs:143-165 | a probe goes on for ever exactly when its key is absent and no slot is EMPTY |
| Probing.Step | veddb-core/src/kv/hash_table.rs:206-337 | changing one slot along an unbroken probe path changes the represented map at that key alone, and keeps the representation |
| Probing.LiveCountIsCardinality | veddb-core/src/kv/hash_table.rs:406-408 | the number of live slots is the number of keys of the represented map |
| Probing.FailedGrowthIff | veddb-core/src/kv/hash_table.rs:216-222 | after a failed growing allocation the table survives every allocator within the contract exactly when the freed block was empty |
| Probing.SurvivesIffSame | veddb-core/src/kv/hash_table.rs:216-222 | if only one record's block may have changed, the table survives exactly if that block reads the same |
| HashTable.Table.constructor | veddb-core/src/kv/hash_table.rs:84-106 | a new table represents the empty map |
| HashTable.Table.FindEntry | veddb-core/src/kv/hash_table.rs:143-165 | terminates (distance to the goal slot), finds the key's own slot or an EMPTY slot with no EMPTY slot before it on the cyclic path |
| HashTable.Table.Get | veddb-core/src/kv/hash_table.rs:288-301 | returns the map's value, or nothing for an absent key |
| HashTable.Table.Insert | veddb-core/src/kv/hash_table.rs:194-285 | refines map insertion and stores the value with no other key changed: true exactly for absent keys, versions kept on overwrite, each error case; one entry changes and its record is copied to the granted or the old block; foreign blocks keep their bytes; EMPTY slots are capacity minus fresh insertions |
| HashTable.Table.InsertNew | veddb-core/src/kv/hash_table.rs:249-283 | a fresh key uses up one EMPTY slot and starts at version 1; without memory nothing changes |
| HashTable.Table.Rewrite | veddb-core/src/kv/hash_table.rs:209-247 | a stored key gets the new value in its old block or a larger one; fails exactly when a growing allocation fails |
| HashTable.Table.Remove | veddb-core/src/kv/hash_table.rs:304-337 | removes the key from the map, never restores an EMPTY slot, returns the 32-bit block size |
| HashTable.Table.Cas | veddb-core/src/kv/hash_table.rs:340-403 | refines compare-and-swap on the map and stores the value, cut off at 32 bits of length, with no other key changed; the version wraps |
| HashTable.Churn | veddb-core/src/kv/hash_table.rs:304-337 | inserting and removing a key once per slot leaves the empty map and a table where no probe ends |
| KvStore.Shard.Set | veddb-core/src/kv/shard.rs:68-83 | a step of the store's model: the shard's table performs the insertion (`KvSpec.InsertStores`) apart from all foreign records, `entry_count` follows; a failed growth changes nothing but the arena's bytes |
| KvStore.Shard.Get | veddb-core/src/kv/shard.rs:86-92 | returns the value of the shard's map |
| KvStore.Shard.Delete | veddb-core/src/kv/shard.rs:95-108 | a step of the store's model for the removal; true exactly for present keys; `entry_count` follows |
| KvStore.Shard.Cas | veddb-core/src/kv/shard.rs:111-117 | a step of the store's model for compare-and-swap; a failed growth changes nothing but the arena's bytes |
| KvStore.ApartFromOthers | veddb-core/src/kv/mod.rs:93-113 | if the shards' blocks are pairwise apart, each shard's are apart from all the others' together |
| KvStore.OpStep | veddb-core/src/kv/mod.rs:93-174 | when the key's shard performs an operation the whole store performs it on the one map the shards partition |
| KvStore.StoreStandsIff | veddb-core/src/kv/mod.rs:133-174 | if only one shard's records may have changed, the store stands exactly if that shard's table survives |
| KvStore.RunIsOneMap | veddb-core/src/kv/mod.rs:93-174 | in every run, for any routing hash, the shards partition one map, the map of the run |
| KvStore.RunCounts | veddb-core/src/kv/mod.rs:133-174 | in every run the entry counts add up to the number of keys, and `total_keys` exceeds that number by exactly the overwriting sets |
| KvStore.SizesAddUp | veddb-core/src/kv/mod.rs:177-197 | sizes of the shards of one map add up to its cardinality |
| KvStore.Sharded.constructor | veddb-core/src/kv/mod.rs:65-90 | new shards hold the empty map together |
| KvStore.Sharded.Set | veddb-core/src/kv/mod.rs:133-144 | in place: routes to the key's shard; a success stores the value in the one map of all shards and changes no other key, `total_keys` counts it; after a failed growth only the arena's bytes differ, and the store stands exactly if the shard's table survives |
| KvStore.Sharded.Get | veddb-core/src/kv/mod.rs:147-152 | in place: the value of the one map |
| KvStore.Sharded.Delete | veddb-core/src/kv/mod.rs:155-166 | in place: the one map loses the key; true exactly for present keys |
| KvStore.Sharded.Cas | veddb-core/src/kv/mod.rs:169-174 | in place: compare-and-swap on the one map, a success stores the value and changes no other key; after a failed growth only the arena's bytes differ, and the store stands exactly if the shard's table survives |
| KvStore.Sharded.TotalEntries | veddb-core/src/kv/mod.rs:177-197 | the statistics loop over the shards returns the number of keys of the one map |
| BumpAllocator.AcceptedFitsIff | veddb-core/src/arena.rs:174-203 | an accepted request fits the arena exactly when its sum did not wrap |
| BumpAllocator.WrapMovesBack | veddb-core/src/arena.rs:174-203 | every unaligned request that wraps is accepted and moves the bump pointer back |
| BumpAllocator.MaskAlignsIff | veddb-core/src/arena.rs:179-179 | the mask yields multiples of the alignment exactly for powers of two |
| BumpAllocator.SafeIffNoWrap | veddb-core/src/arena.rs:174-203 | requests up to a size with a given power of two as alignment are safe under every interleaving exactly if the limit rounded up to the alignment, and that plus the size, stay below 2^64 |
| BumpAllocator.StepKeeps | veddb-core/src/arena.rs:174-203 | every load, compare-exchange and counter step of any thread keeps the allocator's invariant, and the pointer and the claims only grow |
| BumpAllocator.ClaimsAreSafe | veddb-core/src/arena.rs:174-203 | under every interleaving successful blocks are aligned, in bounds and pairwise disjoint |
| BumpAllocator.PointerOnlyGrows | veddb-core/src/arena.rs:174-203 | between any two moments of a run the pointer does not decrease and no claim is taken back |
| BumpAllocator.QuietCountersAreExact | veddb-core/src/arena.rs:192-198 | when no thread is inside, the counters are the number and the byte sum of the claims |
| BumpAllocator.RefusedNeverFits | veddb-core/src/arena.rs:174-203 | a refused call's size fits at no aligned offset above the pointer the thread loaded, nor above the pointer at any later moment |
| Arena.ClassIsFirst | veddb-core/src/arena.rs:101-105 | a size fits a class exactly when its own class is not above it |
| Arena.RecycledIff | veddb-core/src/arena.rs:211-232 | blocks of 4 to 32768 bytes, and only those, go to a free list |
| Arena.BumpKeeps | veddb-core/src/arena.rs:174-203 | bump allocation keeps ownership, separation and free-list shape |
| Arena.PopKeeps | veddb-core/src/arena.rs:133-171 | taking the head of a free list returns an aligned block with room for the asked size and keeps the lists acyclic and separate |
| Arena.ServesSmaller | veddb-core/src/arena.rs:211-232 | a block given back with less than its size holds a node and serves every request of the class it is filed under |
| Arena.PushKeeps | veddb-core/src/arena.rs:211-262 | giving a block back, also with less than its size, keeps the invariant; the node fits in the block's room |
| Arena.NodeLayout | veddb-core/src/arena.rs:15-20 | a free node holds the next offset in its first eight bytes and the class size in the next four, least significant byte first |
| Arena.ClientWriteKeeps | veddb-core/src/arena.rs:211-262 | writes inside a live block never touch a free node |
| ArenaRuns.DisciplinedRunsAreSafe | veddb-core/src/arena.rs:115-262 | in every disciplined run, with blocks given back with any size up to their own, live blocks are in bounds, disjoint and keep their bytes, and each granted offset is aligned and not live |
| ArenaRuns.SafeIffDisciplined | veddb-core/src/arena.rs:115-262 | all runs over a set of sizes, with any alignment or with alignments of 8, are safe exactly when the sizes are disciplined |
| ArenaRuns.DisciplinedBytes | veddb-core/src/arena.rs:115-262 | under any alignment that means at least 16 bytes and one recycled size per class |
| ArenaRuns.SmallBlockBreaks | veddb-core/src/arena.rs:15-20 | for every recycled size without room for a node a run exists in which freeing a block overwrites its neighbour |
| ArenaRuns.MixedClassBreaks | veddb-core/src/arena.rs:133-171 | for every two sizes of one class, one beyond the other's room, a run exists in which two live blocks overlap |
| ArenaRuns.AllocMeetsContract | veddb-core/src/arena.rs:115-130 | in disciplined runs allocation meets the contract the hash table is proved against |
| ArenaRuns.FreeMeetsContract | veddb-core/src/arena.rs:211-262 | in disciplined runs freeing, with any size up to the block's, leaves all other live blocks' bytes alone |
| ArenaRuns.CountersAreExact | veddb-core/src/arena.rs:115-262 | in every run the counters are the number of requests served, the bytes they asked for and the number of blocks given back |
| TableOnArena.AllocateGrants | veddb-core/src/kv/hash_table.rs:249-258 | in every state a disciplined run reaches the arena's answer to a fresh insertion is one the table is proved against, also where records have shrunk inside their blocks |
| TableOnArena.GrowGrants | veddb-core/src/kv/hash_table.rs:216-222 | freeing the record's block with the record's size and then allocating is an answer the table is proved against |
| TableOnArena.FreeGrants | veddb-core/src/kv/hash_table.rs:304-337 | freeing on removal, with the 32-bit sum of the lengths, keeps the bytes of all other records |
| TableOnArena.StoreKeepsHoused | veddb-core/src/kv/hash_table.rs:260-278 | a record stored in a new block keeps every record in a live block of its own |
| TableOnArena.ShrinkKeepsHoused | veddb-core/src/kv/hash_table.rs:224-246 | so does a record overwritten in place by a shorter one |
| TableOnArena.BuryKeepsHoused | veddb-core/src/kv/hash_table.rs:316-333 | so does a tombstone in place of a record whose block was given back |
| TableOnArena.FailedGrowthOnArenaIff | veddb-core/src/kv/hash_table.rs:216-222 | after a growing write whose allocation fails the table stands exactly if the record's size is not recycled or the record starts with the bytes of the free node; a recycled block heads its free list |
| TableOnArena.FreedBlockIsReused | veddb-core/src/arena.rs:133-171 | the next request of the class then gets the block the table still refers to |
| TableOnArena.FailedGrowthHappens | veddb-core/src/kv/hash_table.rs:216-222 | a disciplined run in which 16 bytes fill the arena, growth to 24 fails and the table does not survive |
| ArenaTable.AnswerIsGranted | veddb-core/src/kv/hash_table.rs:206-258 | whatever the arena answers to a write of a demanded size, after the old block was given back if the record has to grow, is an answer the table is proved against |
| ArenaTable.WriteSettles | veddb-core/src/kv/hash_table.rs:206-278 | after a write, in a new block or in the old one, the arena is sound and every record has a live block to itself |
| ArenaTable.RemoveSettles | veddb-core/src/kv/hash_table.rs:304-337 | so it is after a removal, whose block is given back with the 32-bit sum of its lengths |
| ArenaTable.BackedTable.constructor | veddb-core/src/kv/hash_table.rs:84-106 | an empty table on a fresh arena holds the map of the empty run |
| ArenaTable.BackedTable.Get | veddb-core/src/kv/hash_table.rs:288-301 | on the real arena: the value in the map of the run so far |
| ArenaTable.BackedTable.Insert | veddb-core/src/kv/hash_table.rs:194-285 | on the real arena: the run goes on by the insertion, granted exactly if the arena answers, and a success stores the value; a growing write that fails leaves everything but the bytes, and the table stands exactly under the condition of `FailedGrowthOnArenaIff` |
| ArenaTable.BackedTable.Cas | veddb-core/src/kv/hash_table.rs:340-403 | on the real arena: the run goes on by the compare-and-swap, a success stores the value, with the same exception |
| ArenaTable.BackedTable.Remove | veddb-core/src/kv/hash_table.rs:304-337 | on the real arena: the run goes on by the removal |
| ArenaBuffer.SizeClassFor | veddb-core/src/arena.rs:101-105 | the scan of the class table finds the first class that fits, or none |
| ArenaBuffer.Buffer.AllocateFromFreeList | veddb-core/src/arena.rs:133-171 | in place: the pop of the specification, or nothing |
| ArenaBuffer.Buffer.BumpAllocate | veddb-core/src/arena.rs:174-203 | in place: the bump step of the specification |
| ArenaBuffer.Buffer.AddToFreeList | veddb-core/src/arena.rs:235-262 | in place: the 16 node bytes are written and the list head moved, nothing else |
| ArenaBuffer.Buffer.Allocate | veddb-core/src/arena.rs:115-130 | in place: the allocation of the specification |
| ArenaBuffer.Buffer.Free | veddb-core/src/arena.rs:211-232 | in place: the free of the specification |
| IndexKeys.ValueTotal | veddb-core/src/index/btree.rs:259-321 | index values are totally ordered, exactly one of less, equal, greater |
| IndexKeys.KeyTotal | veddb-core/src/index/btree.rs:205-210 | compound keys are totally ordered lexicographically |
| IndexKeys.KeyTransitive | veddb-core/src/index/btree.rs:205-210 | that order is transitive |
| IndexKeys.InOrder | veddb-core/src/index/btree.rs:132-178 | the tree's keys come out once each, ascending |
| BTreeIndex.InsertFailsIff | veddb-core/src/index/btree.rs:60-93 | for any id, an insert is refused exactly for an unsupported field or, in a unique index, the key of another document |
| BTreeIndex.InsertAgrees | veddb-core/src/index/btree.rs:60-93 | after an insert the index lists what a scan of the larger collection lists, entry count included |
| BTreeIndex.InsertAgreesIff | veddb-core/src/index/btree.rs:60-93 | for any id, a successful insert leaves the index agreeing with the new collection exactly if the id is new or its old document was not listed |
| BTreeIndex.RemoveAgreesIff | veddb-core/src/index/btree.rs:96-123 | removing by any document succeeds exactly if its key can be computed, and leaves the index agreeing with the collection without the id exactly if it names the entry the index has |
| BTreeIndex.RemoveUndoesInsertIff | veddb-core/src/index/btree.rs:60-123 | for any id, removing what was just inserted restores tree and statistics exactly if the document is not listed, the id was not listed under its key, or the index is not unique and had the id last under it |
| BTreeIndex.FindExactIsScan | veddb-core/src/index/btree.rs:126-129 | an exact lookup returns the ids a scan selects, each once |
| BTreeIndex.InRangeMeans | veddb-core/src/index/btree.rs:132-178 | the four bound modes are the four interval kinds of the key order |
| BTreeIndex.FindRange | veddb-core/src/index/btree.rs:132-178 | a range lookup returns the ids a scan selects, each once, by ascending key |
| BTreeIndex.SizesFollow | veddb-core/src/index/btree.rs:60-123 | the size statistic grows and shrinks by the estimates of the entries made and taken out |
| IndexLaws.KeyIff | veddb-core/src/index/btree.rs:214-227 | a document has a key exactly if no indexed field holds an array or an object, and the key holds the value of each field in its place, null for a missing one |
| IndexLaws.LeftOutIff | veddb-core/src/index/btree.rs:64-67 | a sparse index leaves out exactly the documents with a null or missing field, any other none |
| IndexLaws.ExactMeans | veddb-core/src/index/btree.rs:126-129 | an exact lookup answers with the documents that hold the key's values, those left out aside |
| IndexLaws.IntRange | veddb-core/src/index/btree.rs:132-178 | a range of integers answers with the documents that hold one between the bounds, of either width, by non-decreasing number |
| IndexLaws.TimeRange | veddb-core/src/index/btree.rs:132-178 | the same for times, by the second |
| IndexLaws.FloatRange | veddb-core/src/index/btree.rs:311-321 | the same for floating-point numbers, by size between the infinities |
| IndexLaws.TextRange | veddb-core/src/index/btree.rs:132-178 | the same for strings, by the first character that differs |
| IndexLaws.BinaryRange | veddb-core/src/index/btree.rs:132-178 | the same for bytes, by the first byte that differs |
| IndexLaws.ObjectIdRange | veddb-core/src/index/btree.rs:132-178 | the same for object ids |
| IndexLaws.KindsInOrder | veddb-core/src/index/btree.rs:259-279 | whatever the bounds, the answer comes kind by kind, null and missing first, false before true |
| IndexLaws.CompoundOrder | veddb-core/src/index/btree.rs:205-210 | documents with integers in all fields of a compound index come by the first field that differs |
| IndexManager.Manager.CreateIndex | veddb-core/src/index/manager.rs:38-66 | the new index is empty and replaces one of its name; agreement survives exactly when it has nothing to list |
| IndexManager.Manager.InsertDocument | veddb-core/src/index/manager.rs:107-127 | for any id: succeeds exactly when every index can take the document; the indexes then agree exactly if none listed an old document of the id; otherwise they are as before exactly if each rollback undoes its insertion, which it does for a new id |
| IndexManager.Manager.RollbackInsertions | veddb-core/src/index/manager.rs:266-284 | takes the document out again of every index changed before the failing one, and touches no other |
| IndexManager.Manager.RemoveDocument | veddb-core/src/index/manager.rs:150-165 | succeeds exactly if every index can compute the key; the indexes then agree with the collection without the id exactly if the document names each one's entry |
| IndexManager.Manager.UpdateDocument | veddb-core/src/index/manager.rs:130-147 | succeeds exactly when the new document is acceptable without the old one; a failed update leaves the indexes agreeing with the collection minus the document |
| IndexManager.Manager.FindWithIndex | veddb-core/src/index/manager.rs:168-190 | exact lookup equals a scan; fails exactly for unknown names |
| IndexManager.Manager.FindRangeWithIndex | veddb-core/src/index/manager.rs:193-218 | range lookup equals a scan, by ascending key |
| KeyRotation.Scheduler.ScanDocuments | veddb-core/src/encryption/key_rotation.rs:246-258 | yields the documents of the one collection the key is for; fails exactly if listing or scanning that collection fails |
| KeyRotation.Scheduler.ReencryptBatch | veddb-core/src/encryption/key_rotation.rs:565-603 | after each document the disk is in a state of the rotation; succeeds exactly if every document the old key opens can be updated; counts those |
| KeyRotation.Scheduler.RotateKey | veddb-core/src/encryption/key_rotation.rs:198-320 | with any step failing: the exact success condition; every disk state after the save of ReEncrypting is in flight until completion; a failed rotation blocks the next exactly if it had got that far |
| KeyRotation.Scheduler.ResumeRotation | veddb-core/src/encryption/key_rotation.rs:330-495 | with any step failing: the exact success condition; the key is rotated once more; exactly the documents from the checkpoint on that open under the key current at resume are converted; every state on disk has the key id, the old total, the count so far and the last checkpoint, at most a batch behind |
| KeyRotation.CrashKeepsPlaintext | veddb-core/src/encryption/key_rotation.rs:198-320 | at every crash point each document opens under the old or the new key to its text, other collections are unchanged, a new rotation is blocked |
| KeyRotation.FinishedKeepsPlaintext | veddb-core/src/encryption/key_rotation.rs:198-320 | after success every document opens under the current key to its text, and the saved count is their number |
| KeyRotation.CrashRecoverableIff | veddb-core/src/encryption/key_manager.rs:212-234 | with the keys on disk a document can be opened exactly if it was re-encrypted before the crash |
| KeyRotation.ResumeKeepsOnlyWhatWasDone | veddb-core/src/encryption/key_rotation.rs:385-495 | after crash and completed resumption the current key opens exactly the documents done before the crash |
| KeyRotation.ResumesAtCheckpoint | veddb-core/src/encryption/key_rotation.rs:417-444 | a resumed run starts at the document of its checkpoint |
| KeyRotation.CheckpointResumes | veddb-core/src/encryption/key_rotation.rs:455-467 | what a crashed resumption leaves names the key, the old total, the count so far and the last document of its last checkpoint, and the next resumption starts at that document |
| KeyRotation.LostCheckpointSkipsAll | veddb-core/src/encryption/key_rotation.rs:417-444 | a checkpoint that the scan does not meet leaves nothing to re-encrypt |
| KeyRotation.RotationIsAttempt | veddb-core/src/encryption/key_rotation.rs:198-320 | every state a rotation can leave is an attempt that resumptions can follow |
| KeyRotation.ResumptionIsAttempt | veddb-core/src/encryption/key_rotation.rs:385-495 | every state a resumption can leave is an attempt that the next one can follow |
| KeyRotation.AttemptsKeepKeyId | veddb-core/src/encryption/key_rotation.rs:330-365 | no crashed resumption forgets which key it is about |
| KeyRotation.AttemptsKeepIff | veddb-core/src/encryption/key_rotation.rs:330-495 | after a rotation and any number of resumptions, crashed or completed, the current key opens exactly the documents that all of them went through, to their text |
| KeyRotation.AttemptsCountVersions | veddb-core/src/encryption/key_manager.rs:212-234 | each attempt takes the key to its next version and changes no other key |
| Eviction.AheadIsMeant | veddb-core/src/cache/eviction.rs:23-49 | the eviction order never contradicts the documented one, equals it under LFU, and misses only ties in whole seconds |
| Eviction.VictimsInOrder | veddb-core/src/cache/eviction.rs:52-91 | all candidates are listed once, none behind one it ranks ahead of |
| Eviction.FewerVictims | veddb-core/src/cache/eviction.rs:52-91 | a smaller request is answered by the front of the same order, with exactly that many keys |
| Eviction.SubSecondAccessesTie | veddb-core/src/cache/eviction.rs:23-49 | within one second LRU can give up the later used value first |
| CacheSpec.IdealIsLastStore | veddb-core/src/cache/cache_layer.rs:67-179 | the promised map holds a key exactly when some call set it last, with that call's value |
| CacheSpec.IdealIsLastTiming | veddb-core/src/cache/cache_layer.rs:138-157 | its expiry is that of the last call that set or changed it |
| CacheSpec.FoundIsLastStored | veddb-core/src/cache/cache_layer.rs:67-86 | in every run a value found is the one set last, not removed since, and its latest expiry had not passed |
| CacheSpec.IdealIsLastUse | veddb-core/src/cache/data_structures.rs:59-62 | the access mark is the clock reading of the last call that set or found the key |
| CacheSpec.IdealCountsHits | veddb-core/src/cache/data_structures.rs:59-62 | the access count is the number of lookups that found the key since it was set |
| CacheSpec.EvictionIsFair | veddb-core/src/cache/cache_layer.rs:236-272 | no survivor ranks ahead of a victim, the target is freed or nothing is left, and the last victim was needed |
| CacheSpec.EvictedByRank | veddb-core/src/cache/cache_layer.rs:236-272 | an entry is evicted if all that may precede it weigh less than the target, and stays if those that must precede it reach it |
| CacheSpec.EvictedByRankIff | veddb-core/src/cache/cache_layer.rs:236-272 | without ties that decides exactly |
| Cache.CacheLayer.GetExpiredKeys | veddb-core/src/cache/ttl_manager.rs:68-82 | pops exactly the due entries and returns exactly their keys |
| Cache.CacheLayer.EvictExpired | veddb-core/src/cache/cache_layer.rs:202-210 | exactly the keys with a due heap entry leave; the byte counter stays the sum of sizes |
| Cache.CacheLayer.Get | veddb-core/src/cache/cache_layer.rs:67-86 | finds exactly the keys left by the sweep whose expiry has not passed and marks what it found; keeps the run sound and every mark and count that of the log, hits plus misses are the lookups, the byte counter is exact |
| Cache.CacheLayer.Remove | veddb-core/src/cache/cache_layer.rs:122-130 | the key leaves the cache and the promised map |
| Cache.CacheLayer.GiveUp | veddb-core/src/cache/cache_layer.rs:256-271 | the loop gives up the shortest prefix that frees the target |
| Cache.CacheLayer.EvictByPolicy | veddb-core/src/cache/cache_layer.rs:236-272 | the victims are the shortest sufficient prefix of the policy order, and exactly their heap entries go |
| Cache.CacheLayer.EnsureSpace | veddb-core/src/cache/cache_layer.rs:213-233 | refuses exactly when full without eviction; otherwise the value fits or the cache is empty |
| Cache.CacheLayer.SetWithTtl | veddb-core/src/cache/cache_layer.rs:94-119 | after success the size is at most the maximum or the new entry is alone; what was evicted and which heap entries went with it; a refusal leaves its heap entry behind |
| Cache.CacheLayer.TrackedByRank | veddb-core/src/cache/cache_layer.rs:94-119 | the new entry is tracked exactly when making room did not evict its own old value, decided by the cache before the call up to ties |
| Cache.CacheLayer.LruSparesUsed | veddb-core/src/cache/cache_layer.rs:236-272 | under LRU an entry last set or found at least a second after another is not evicted while the other stays |
| Cache.CacheLayer.LfuSparesUsed | veddb-core/src/cache/cache_layer.rs:236-272 | under LFU nor is one that was found more often since it was set |
| Cache.CacheLayer.TtlSparesLater | veddb-core/src/cache/cache_layer.rs:236-272 | under TTL nor is one that never expires, or at least two seconds later |
| Cache.LosesTrack | veddb-core/src/cache/cache_layer.rs:94-119 | two calls that leave an entry with a TTL which no sweep will drop |
| Cache.SweptEarlyIff | veddb-core/src/cache/cache_layer.rs:202-210 | some sweep drops an entry before its expiry exactly if the heap has a sooner entry of its key |
| Cache.SweptOnTimeIff | veddb-core/src/cache/cache_layer.rs:202-210 | sweeps drop an entry exactly from its expiry on exactly if the heap has that expiry and nothing sooner |
| Cache.EarlyAfterSetIff | veddb-core/src/cache/cache_layer.rs:94-119 | a set leaves its entry to an early sweep exactly if the heap had a sooner entry of the key and making room did not evict the key |
| Cache.EarlyAfterRefusalIff | veddb-core/src/cache/cache_layer.rs:94-119 | a refused set leaves the old entry to an early sweep exactly if it was so before or the refused expiry is sooner |
| Cache.OverwrittenSweptEarly | veddb-core/src/cache/cache_layer.rs:94-119 | two calls after which a value without expiry is dropped at the expiry of the value it replaced |
| Cache.RefusalSweptEarly | veddb-core/src/cache/cache_layer.rs:94-119 | two calls after which a value without expiry is dropped at the expiry of a refused one |
| Cache.CacheLayer.Expire | veddb-core/src/cache/cache_layer.rs:138-146 | from then on the key is due exactly from its new time on |
| Cache.CacheLayer.Persist | veddb-core/src/cache/cache_layer.rs:149-157 | from then on no time makes the key due or expired |
| Cache.CacheLayer.Ttl | veddb-core/src/cache/cache_layer.rs:160-172 | reports the promised expiry in whole seconds, -1 without one |
| Cache.CacheLayer.Clear | veddb-core/src/cache/cache_layer.rs:175-179 | cache, heap and promised map become empty |
| WalReplay.Recovery.ReplayWalToTime | veddb-core/src/backup.rs:303-386 | applies exactly the longest prefix of the joined files that is in time, strictly increasing in sequence above the backup and never back in time, and says ok exactly when it ends there or at an entry past the target |
| WalReplay.ChecksExtend | veddb-core/src/backup.rs:339-372 | the loop's checks against its two trackers are what the whole prefix needs to stay monotone |
| WalReplay.ReplayIsDetermined | veddb-core/src/backup.rs:303-386 | a log has one such outcome |
| WalReplay.MonotoneReplay | veddb-core/src/backup.rs:303-386 | on a monotone log replay succeeds and the store is the fold over the entries up to the target |
| WalReplay.ReplaySucceedsIff | veddb-core/src/backup.rs:303-386 | replay succeeds exactly when the log before the first entry past the target is readable, in order, above the backup and applies |
| WalReplay.SuccessIsCompleteIff | veddb-core/src/backup.rs:336-341 | and has then applied all entries it should exactly when none follows that first one |
| WalReplay.LateEntryDropped | veddb-core/src/backup.rs:336-341 | an entry in time behind one past the target is dropped and success reported |
| WalFiles.FindWalFilesAfter | veddb-core/src/backup.rs:389-417 | the files numbered above the sequence, sorted by name |
| WalFiles.SortsByNumberIff | veddb-core/src/backup.rs:413-414 | sorting by path sorts by number exactly when every smaller number has the earlier name |
| WalFiles.InStepIff | veddb-core/src/backup.rs:413-414 | two names are so ordered exactly when their numerals, compared as far as both reach, are, or agree that far and the smaller number is the shorter |
| WalFiles.PaddedNamesSortByNumber | veddb-core/src/backup.rs:413-414 | numerals of one length are always so ordered |
| WalFiles.UnpaddedNamesMissort | veddb-core/src/backup.rs:413-414 | file 10 is read before file 9 |
| WalFiles.PointInTimeRecovery | veddb-core/src/backup.rs:164-177 | the outcome is the replay of the files found over the snapshot |
| WalFiles.ReadsTheRest | veddb-core/src/backup.rs:389-417 | selecting then sorting reads the sorted directory without the files skipped |
| WalFiles.RecoveryCompleteIff | veddb-core/src/backup.rs:164-177 | recovery from any directory succeeds with every entry it should apply exactly when what is read is replayable, no such entry follows the first one past the target, and no skipped file holds one |
| WalFiles.SkippedFileIsLost | veddb-core/src/backup.rs:389-417 | file 1 with entry 6 and a backup at sequence 5: nothing is replayed, success is reported, the entry is lost |
| WalFiles.MonotoneReplayableIff | veddb-core/src/backup.rs:303-386 | a log in order meets the first two conditions exactly when none of its entries up to the target is as old as the backup |
| WalFiles.WriterFilesAreNotFound | veddb-core/src/wal/writer.rs:221-223 | of a directory of `.log` files nothing is replayed and success is reported |
| Documents.GetByPathParts | veddb-core/src/document.rs:435-466 | the loop computes navigation along the path |
| Documents.SplitJoins | veddb-core/src/document.rs:435-437 | the parts of a path hold no dots and joined by dots are the path |
| Documents.SplitIsUnique | veddb-core/src/document.rs:435-437 | there is one way to split a path so |
| Documents.LookupSteps | veddb-core/src/document.rs:435-466 | a dotted path reads the field named before the first dot, and in it the rest |
| Documents.LookupItem | veddb-core/src/document.rs:453-460 | a part that is a number reads the item of an array, counted from zero, and no other part does |
| Text.ParsesIff | veddb-core/src/document.rs:455-455 | digits, after a plus sign or none, parse to their number if it fits in 64 bits |
| Text.NothingElseParses | veddb-core/src/document.rs:455-455 | and nothing else parses |
| Documents.SetSucceedsIff | veddb-core/src/document.rs:469-525 | a write succeeds exactly when no proper prefix of the path holds anything but an object |
| Documents.FailedSetChangesNothing | veddb-core/src/document.rs:469-525 | a failed write changes no field |
| Documents.SetThenGet | veddb-core/src/document.rs:435-525 | after a write the path reads the value and extensions navigate into it |
| Documents.SetKeepsOtherPaths | veddb-core/src/document.rs:435-525 | incomparable paths read as before |
| Documents.SetsCommute | veddb-core/src/document.rs:469-525 | writes at incomparable paths commute |
| Documents.SetAtDottedPath | veddb-core/src/document.rs:435-536 | after a write at a dotted path it reads the value, longer paths read inside it, and paths apart from it read as before |
| Documents.Document.GetByPath | veddb-core/src/document.rs:435-439 | reads what the document holds at the dotted path |
| Documents.Document.SetByPath | veddb-core/src/document.rs:469-536 | in place: on success the dotted path reads the value, paths apart from it read as before, the version counts and the reported size is the size; on failure nothing changes |
| Documents.SizeBytes | veddb-core/src/document.rs:236-255 | the recursion over arrays and objects, in any order of the fields, computes the recursive sum |
| Documents.SizesAre | veddb-core/src/document.rs:236-255 | what each kind of value weighs; arrays and objects weigh eight bytes and their contents |
| Documents.Document.Insert | veddb-core/src/document.rs:406-410 | the field is replaced, the old value returned, the reported size is the size |
| Documents.Document.Remove | veddb-core/src/document.rs:423-427 | the field is gone, its value returned, the reported size is the size |
| Documents.Document.WriteThroughGetMut | veddb-core/src/document.rs:418-420 | a right reported size stays right exactly if the new value has the size of the old one |
| Documents.Document.Stored | veddb-core/src/document.rs:373-375 | a document read back reports its size exactly if it has no field, or just a nameless one with an empty string or empty bytes |
| Grouping.ApplyGroup | veddb-core/src/aggregation.rs:201-240 | fails exactly for more than 100,000 distinct keys; otherwise one group per key, each accumulator in the state its own documents lead to |
| Grouping.Accumulate | veddb-core/src/aggregation.rs:376-388 | one document is added to every accumulator of its group, in any order of the accumulators |
| GroupLaws.AccumulatedMeans | veddb-core/src/aggregation.rs:424-461 | each accumulator holds the sum, count, least or greatest of its field's numbers |
| GroupLaws.AverageBetween | veddb-core/src/aggregation.rs:463-479 | where the field occurs, minimum <= average <= maximum |
| GroupLaws.ReportIsFigure | veddb-core/src/aggregation.rs:463-479 | each accumulator reports the sum, the number of documents, the quotient, the least or the greatest of its group's numbers, zero where there are none |
| GroupLaws.OutputFigures | veddb-core/src/aggregation.rs:390-401 | each output document holds that figure of its own group under the accumulator's name |
| GroupLaws.ShuffleChangesNothing | veddb-core/src/aggregation.rs:201-240 | permuting the input changes neither the keys nor any group |
| GroupLaws.GroupsConserve | veddb-core/src/aggregation.rs:201-240 | group sums and counts add up to those of the whole input, for the counting accumulator to its length |
| GroupLaws.OutputNamesGroupIff | veddb-core/src/aggregation.rs:390-401 | all output documents carry their group's key exactly when no accumulator is named `_id` or there was no input; two groups come out alike exactly if one is and they agree in every figure |
| IndexSelector.FindCompoundIndexes | veddb-core/src/query/index_selector.rs:137-160 | adds no candidate once every index serving a direct condition is one |
| IndexSelector.AnalyzeFilter | veddb-core/src/query/index_selector.rs:58-110 | collects exactly the names of indexes serving a field of the filter, each once, none with the compound bonus |
| IndexSelector.SelectIndex | veddb-core/src/query/index_selector.rs:35-55 | chooses an index exactly when an available one serves a field of the filter; no candidate scores higher, and none that started with the same score beats it |
| IndexSelector.BeatsIff | veddb-core/src/query/index_selector.rs:180-207 | between candidates that start equal uniqueness decides if the filter tests equality, then the sort field, then the doubt about a sparse index |
| IndexSelector.AsksAllTests | veddb-core/src/query/index_selector.rs:210-232 | a filter has a kind of condition, or mentions a field, exactly if one of its conditions does, wherever it stands |
| IndexSelector.HelpsSortIff | veddb-core/src/query/index_selector.rs:234-248 | an index helps a sort exactly if it is on the first sort field, or compound and starts with it |
| Endian.DecodeEncode | veddb-core/src/protocol.rs:278-294 | little-endian decoding inverts encoding for numbers that fit |
| Endian.EncodeDecode | veddb-core/src/protocol.rs:278-294 | and encoding inverts decoding |
| Protocol.ToBytes | veddb-core/src/protocol.rs:520-533 | what is written reads back as the command whatever follows it in the buffer, and each header field lies at its offset, least significant byte first |
| Protocol.ResponseLayout | veddb-core/src/protocol.rs:362-372 | so does each field of a response's header |
| Protocol.ReadsExactly | veddb-core/src/protocol.rs:520-557 | a buffer reads as a command exactly when it starts with the command's bytes and the header lengths are true |
| Protocol.ResponseReadsExactly | veddb-core/src/protocol.rs:587-617 | the same for responses |
| Protocol.PanicsIff | veddb-core/src/protocol.rs:536-557 | a buffer is neither parsed nor refused exactly if the header's lengths overflow 32 bits and the buffer holds their wrapped sum but not the payload |
| Protocol.BareHeaderPanics | veddb-core/src/protocol.rs:342-344 | a bare header that announces 2^32 bytes is such a buffer |

## Left out

- HashTable.Table.FindEntry: requires that the probe ends; `Probing.ProbeStopsIff` is the exact condition.
- BumpAllocator.ClaimsAreSafe: requests whose 64-bit sums may wrap are excluded; `BumpAllocator.SafeIffNoWrap` shows that they have to be.
- ArenaTable.BackedTable.Insert: asks the arena for sizes of a disciplined set that overflow no 64-bit sum; `ArenaRuns.SafeIffDisciplined` and `BumpAllocator.SafeIffNoWrap` show that it has to. The arena is the value of `Arena`, which `ArenaBuffer` refines in place.
- ArenaBuffer.Buffer.Free: requires that a recycled block lies at least 16 bytes before the end of the buffer; the source writes past the end otherwise.
- ArenaRuns.DisciplinedRunsAreSafe: the same exclusion; for alignments of 8 the arena's size is a multiple of 8, since otherwise a free node can reach past its end.
- IndexManager.Manager.UpdateDocument: requires that the old document names the entries the indexes have; `IndexManager.Manager.RemoveDocument` shows why.
- WalReplay.Recovery.ReplayWalToTime: a failing operation leaves the store unchanged; partial effects of one operation are not modelled.
- KeyRotation.Scheduler.RotateKey: the disk is modelled, not the key table in memory, which keeps the new key when saving it fails.
- Concurrent free-list pop and push: a bare compare-exchange on the head gives no sound claim; the lists are modelled sequentially.
- Locks of the shards, of the index manager and of the cache: calls are sequential.
- The index manager holds its indexes as values: aliasing between index objects is not captured.
- The FNV hash: any hash function; slot masks are remainders; raw pointers and memory layout are offsets.
- `operation_count`, `total_operations`, `memory_used`, hit rates and eviction statistics: counters beside the ones proved.
- Floating point: scores, sums, averages and the 20 percent eviction margin are exact; NaN is excluded.
- Index size estimates: any function of the entry.
- Text of group keys: any function of the document.
- `nesting_depth` and document validation limits: easy beside the above.
- AES-GCM, key derivation, audit: encryption is an ideal pair, the right key opens and a wrong one fails.
- Snapshots, log readers, applying operations, backup retention: not part of this model.
- `evict_percentage`, `drop_index`, `optimize_indexes`, background index builds: easy beside the above.
- Builds with overflow checks stop in `total_payload_len` before the slices that `Protocol.PanicsIff` is about.
- Cache TTLs beyond the range of signed 64-bit seconds.
- `$match`, `$sort`, `$project`, query parsing, planning and execution, replication, sessions, servers: not part of this model.
