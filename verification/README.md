# varaha-cache in Dafny

A model of the data structures and protocols at the core of varaha-cache, a Varnish-style HTTP
cache, with proofs of what they promise. `dafny verify dfyconfig.toml` checks everything.

| files | what they model |
|---|---|
| `DigestBits`, `Critbit`, `CritbitShape`, `HashTables`, `ObjHeads` | the object index: a crit-bit tree over 256-bit digests, and the bucketed and list tables with the same interface |
| `Slabs`, `Compaction`, `SlabTable`, `SlabRestart`, `SlabRuns`, `SlabCases`, `Stevedore`, `Endian`, `Quotients` | the persistent slab allocator: first-fit reuse, in-place compaction, the on-disk table and restart |
| `IndexLru` | the index-linked recency list with a free list |
| `LruShard`, `ShardedLru`, `Recency` | the sharded eviction tracker: hash maps, intrusive heap-linked lists and one clock |
| `Vary`, `VaryFields`, `Objects`, `Expiry`, `Engine`, `EngineRuns` | Vary matching, object freshness, the deadline queue and the cache engine over them |
| `RequestRuns`, `RequestSteps`, `RequestLookups` | the request state machine, the loop that drives it, and what it hears from the engine |
| `Coalesce`, `CoalesceEndings` | request coalescing under interleaving |
| `Streaming` | the streaming body under interleaving |
| `LogRing` | the overwriting log ring and its readers |
| `HashRing` | the consistent-hash director |
| `HttpDate` | the two closed forms from date to Unix time |

Code that updates things in place is a class with methods: `PersistentStevedore` on a byte array,
`LruShard` on heap nodes, `Lru`, `CacheEngine`, `RingBuffer` and the others. Each such method is
proved equal to a function on values, and the theorems about whole runs are proved of those
functions. `now`, VCL answers, backend answers and storage outcomes are parameters. Hash functions
and UTF-8 are arbitrary functions. `f64` times are `real`. A section under one lock is one step.

## Where the code does less than one might expect

Each of these is stated as it is, with the exact condition, and reached by a run from a new store,
engine or request.

- A restart finds the slabs the table on disk describes, up to the first free one with an all-zero
  digest (`SlabTable.RestartReads`); what it describes after any run is `SlabRuns.RunTable`
  (`SlabRuns.RestartFinds`). While the table is in step with the store, a restart thus loses slabs
  exactly when a freed slab has an all-zero digest (`SlabTable.RecoveryExact`,
  `SlabCases.RestartLosesLive`). It always loses body lengths (`SlabTable.RecoveryIndex`).
- The table stays in step through a run exactly when every compaction meets a store whose free slabs
  are all at the end of the vector and have all-zero digests (`SlabRuns.RunSyncs`,
  `SlabTable.CompactSyncs`). Without freed all-zero digests that means no slab was free
  (`SlabCases.CompactLosesStep`); with one, a slab can be dropped unharmed
  (`SlabCases.CompactDropsBlank`).
- A restart after another compaction brings back the dropped slabs (`SlabRestart.CompactedRecovery`).
  Unless a freed all-zero digest hides some, the restarted store is sound exactly when every free slab
  lay behind the bytes the live ones need (`SlabRestart.CompactedInv`, `SlabCases.RestartOverlaps`).
  What is stored between the compaction and the restart can take the entry of a live slab
  (`SlabCases.RestartForgets`).
- A file with a bad header opens as an empty store, but its table is not cleared: the next restart
  finds the slabs again (`SlabTable.OpenInvalid`, `SlabTable.ForgottenReturn`,
  `SlabCases.DamagedHeader`). The size in the header is not compared: reopening with another size is
  sound exactly when every slab found still ends inside the file (`SlabTable.ReopenResized`).
- Allocating a live digest again breaks the one-to-one index (`Slabs.AllocOneToOne`,
  `SlabCases.AllocatedTwice`). Compaction may then bring the old body back
  (`Compaction.ReallocThenCompact`, `SlabCases.OldBodyReturns`), or an object that was freed
  (`Compaction.FreedReturns`, `SlabCases.FreedObjectReturns`).
- Opening an open store lists what a restart would find a second time. The store is sound afterwards
  exactly when nothing was in use and a restart would find nothing (`SlabTable.ReopenExact`,
  `SlabCases.ReopenDuplicates`).
- With short field names, a stored response does not match its own request exactly when its Vary
  header is `*` on its own or a value is 65536 bytes or longer (`Vary.SelfMatch`,
  `Vary.LongValueMisses`); a `*` inside a Vary list is an ordinary name
  (`Vary.NeverMatchesIffStar`, `Vary.StarInListMatches`).
- A lookup never answers hit-for-pass or busy. Objects with such a mark are skipped, and dropped when
  there is nothing else to serve (`RequestLookups.AnswersFromEngine`,
  `RequestLookups.HitForPassForgotten`), so only VCL ever puts a request in pass mode
  (`RequestLookups.PassOnlyByVcl`).
- `complete` and `cancel` name a digest, not a flight. The flights of a digest are all ended for the
  checks that opened them exactly when none is ended for a check that fetched because there were
  enough waiters (`CoalesceEndings.EndedByCreators`, `CoalesceEndings.EndedForOthers`).
- A lookup that matches no variant drops fresh ones (`Engine.MissDropsVariants`). A purged object's
  deadline drops its successor (`Engine.StaleDeadline`). A refused insertion has already evicted
  (`Engine.RefusedInsertEvicts`). An object is due while lookup still serves it exactly when it has
  neither grace nor keep and its lifetime ends at this very moment (`Engine.DueAfterServed`).
- A restarted lookup is not counted, so a request ends exactly when there are finitely many
  (`RequestRuns.TerminatesIff`, `RequestRuns.NeverDone`). A restart from `vcl_synth` is counted but
  does not happen, and leaves no response (`RequestRuns.SynthRestartLost`,
  `RequestRuns.SynthRestartRun`). An object found before a restart is delivered after it, whatever
  was fetched since (`RequestRuns.RespondsExactly`, `RequestRuns.OldObjectDelivered`). `vcl_miss`
  can send a request to delivery with nothing to deliver (`RequestRuns.NothingToDeliver`).
- `tail` can return more than asked for (`LogRing.TailBetweenWrites`, `LogRing.TailReturnsMore`).
- The table date formula is wrong in many years before 1969 (`HttpDate.TableDaysExact`), and so are
  comparisons close to their ends (`HttpDate.NotModifiedSince`, `HttpDate.ComparisonFails`); the March
  formula is wrong in the first two months of year 0 (`HttpDate.MarchDaysExact`).

Where comments in the source and the code differ, the model follows the code: `complete` in
coalescing removes the entry before it sends, not after.

## Model

| member | source | states |
|---|---|---|
| `DigestBits.LeadingZerosOfXor` | crates/rv-hash/src/critbit.rs:70-81 | the leading zeros of the exclusive or of two bytes are the leading bits on which they agree, and the bit after them differs |
| `DigestBits.FindCriticalBit` | crates/rv-hash/src/critbit.rs:70-81 | none exactly for equal digests; otherwise the first bit in which they differ |
| `Critbit.WalkFindsExactly` | crates/rv-hash/src/critbit.rs:85-100 | in a well-formed tree the walk ends at a stored head, and a digest is stored exactly when the walk ends at it |
| `Critbit.CriticalBitOfSubtree` | crates/rv-hash/src/critbit.rs:105-176 | the critical bit against the one walked-to leaf is right for every digest below the place of insertion |
| `Critbit.SplitCorrect` | crates/rv-hash/src/critbit.rs:117-176 | the new internal node keeps the tree well formed and adds exactly the new head |
| `Critbit.InsertCorrect` | crates/rv-hash/src/critbit.rs:105-176 | insertion at the walked-to leaf's critical bit keeps the invariant and adds exactly one mapping |
| `Critbit.RemoveCorrect` | crates/rv-hash/src/critbit.rs:179-255 | removal keeps the invariant, deletes exactly the digest and returns the head that was stored, if any |
| `CritbitShape.Canonical` | crates/rv-hash/src/critbit.rs:105-255 | two well-formed trees with the same contents are identical |
| `CritbitShape.DepthBound` | crates/rv-hash/src/critbit.rs:105-255 | no path has more than 256 internal nodes |
| `CritbitShape.RemoveUndoesInsert` | crates/rv-hash/src/critbit.rs:105-255 | removing a just-inserted digest gives back the very same tree and the inserted head |
| `CritbitShape.OrderIndependent` | crates/rv-hash/src/critbit.rs:105-176 | the tree built from a set of heads does not depend on the order of insertion |
| `ObjHeads.ObjHead.IncRef` | crates/rv-hash/src/objhead.rs:53-58 | one more reference, and the new count |
| `ObjHeads.ObjHead.DecRef` | crates/rv-hash/src/objhead.rs:62-66 | one reference less, and the new count |
| `HashTables.RunCounts` | crates/rv-hash/src/simple.rs:44-89 | over every balanced run of the reference map, a head is stored exactly when its outstanding lookups are positive, and its count is their number |
| `HashTables.RunServesOpener` | crates/rv-hash/src/simple.rs:44-89 | the head served for a digest is the one brought by the lookup that opened its current period |
| `HashTables.RunOuts` | crates/rv-hash/src/simple.rs:44-89 | every answer of every balanced run: a lookup gives the opener's head, the offered one unused exactly when the digest was referenced; a deref removes exactly with the last reference |
| `HashTables.InsertIntoRoot` | crates/rv-hash/src/critbit.rs:286-313 | inserting into the whole tree, empty or not, adds exactly the new head |
| `HashTables.FindInRoot` | crates/rv-hash/src/critbit.rs:272-281 | finds the stored head of a digest, or none |
| `HashTables.RemoveFromRoot` | crates/rv-hash/src/critbit.rs:320-324 | removes exactly one digest from the whole tree |
| `HashTables.CritbitHash.Lookup` | crates/rv-hash/src/critbit.rs:266-313 | returns the stored head with one more reference, else stores the offered one; the unused head is handed back |
| `HashTables.CritbitHash.Deref` | crates/rv-hash/src/critbit.rs:317-329 | drops one reference; when none is left the digest leaves the table, whichever head is filed under it |
| `HashTables.SimpleListHash.Lookup` | crates/rv-hash/src/simple.rs:44-75 | the same contract over one unordered list |
| `HashTables.SimpleListHash.Deref` | crates/rv-hash/src/simple.rs:77-89 | drops one reference; when none is left the head leaves the list, if it is in it, and no other head does |
| `HashTables.ClassicHash.Lookup` | crates/rv-hash/src/classic.rs:78-98 | the same contract over buckets |
| `HashTables.ClassicHash.Deref` | crates/rv-hash/src/classic.rs:100-112 | drops one reference; when none is left the head leaves its bucket, if it is in it, and no other head does |
| `HashTables.SwapRemoveLists` | crates/rv-hash/src/classic.rs:100-112 | `swap_remove` removes exactly the head at its position from the represented map |
| `HashTables.BucketIndex` | crates/rv-hash/src/classic.rs:48-60 | every digest has a bucket within range |
| `HashTables.RunTable` | crates/rv-hash/src/critbit.rs:266-329 | any of the three tables driven through a whole balanced run gives the outputs of the reference map |
| `HashTables.RunAll` | crates/rv-hash/src/classic.rs:78-112 | crit-bit, bucketed and list tables give the same heads and removal flags over every balanced run |
| `Slabs.ChooseGood` | crates/rv-storage/src/persistent.rs:320-369 | the chosen slab is free, large enough and leaves a valid layout: first fit among the old ones, else a new one past the end |
| `Slabs.AllocSucceeds` | crates/rv-storage/src/persistent.rs:512-548 | allocation succeeds exactly when a free slab fits or there is room for a new one; a failure changes nothing |
| `Slabs.AllocExactly` | crates/rv-storage/src/persistent.rs:320-369 | allocation reuses the first free slab that is large enough; without one it adds the smallest aligned slab behind all others; else it fails and changes nothing |
| `Slabs.AllocInv` | crates/rv-storage/src/persistent.rs:512-548 | allocation keeps slabs disjoint, aligned and inside the data region, the index pointing at live slabs and the used size exact |
| `Slabs.AllocBodies` | crates/rv-storage/src/persistent.rs:512-548 | the new object reads as empty and every other body is unchanged |
| `Slabs.AllocOneToOne` | crates/rv-storage/src/persistent.rs:512-548 | live slabs and index stay one to one exactly when the digest was not already live |
| `Slabs.FreeInv` | crates/rv-storage/src/persistent.rs:550-575 | freeing keeps the invariant |
| `Slabs.FreeBodies` | crates/rv-storage/src/persistent.rs:550-575 | freeing removes one digest and keeps every other body |
| `Slabs.ExtendInv` | crates/rv-storage/src/persistent.rs:582-616 | extending keeps the invariant |
| `Slabs.ExtendAnswers` | crates/rv-storage/src/persistent.rs:582-616 | which answer `extend` gives, and that a refusal changes nothing |
| `Slabs.ExtendBodies` | crates/rv-storage/src/persistent.rs:582-616 | a successful extend appends to its own body and changes no other |
| `Slabs.EntryKeepsData` | crates/rv-storage/src/persistent.rs:243-277 | a table write never touches a byte of any body |
| `Compaction.CopyDownKeeps` | crates/rv-storage/src/persistent.rs:398-409 | one overlapping left move lands the body and leaves everything behind the slab as it was |
| `Compaction.MoveAllKeeps` | crates/rv-storage/src/persistent.rs:398-426 | the whole loop of left moves keeps every moved body and never overtakes a slab still to be moved |
| `Compaction.CompactInv` | crates/rv-storage/src/persistent.rs:376-451 | compaction keeps the allocator invariant and the used size |
| `Compaction.CompactPreserves` | crates/rv-storage/src/persistent.rs:376-451 | with one live slab per digest, every digest reads the same body after compaction, and stays one to one |
| `Compaction.CompactBody` | crates/rv-storage/src/persistent.rs:376-451 | in general, a digest reads the body of the last live slab that carries it |
| `Compaction.CompactPacks` | crates/rv-storage/src/persistent.rs:376-451 | after compaction there is no gap: each slab starts the data region or begins where another ends |
| `Compaction.ReallocThenCompact` | crates/rv-storage/src/persistent.rs:376-451 | after allocating a live digest again, compaction keeps its new body exactly when the new slab lies after the old one |
| `Compaction.FreedReturns` | crates/rv-storage/src/persistent.rs:376-451 | after allocating a live digest again and freeing it, compaction brings the digest back with its old body |
| `Compaction.SortSorted` | crates/rv-storage/src/persistent.rs:387-393 | the moves are made in order of offset |
| `SlabTable.ReadBack` | crates/rv-storage/src/persistent.rs:243-277 | decoding a written table entry gives the slab back, without its body length |
| `SlabTable.AllocSyncs` | crates/rv-storage/src/persistent.rs:512-548 | allocation keeps the on-disk table in step with the slab vector |
| `SlabTable.FreeSyncs` | crates/rv-storage/src/persistent.rs:550-575 | freeing keeps the table in step |
| `SlabTable.ExtendSyncs` | crates/rv-storage/src/persistent.rs:582-616 | extending keeps the table in step |
| `SlabTable.NewFileSynced` | crates/rv-storage/src/persistent.rs:459-499 | a new zeroed file satisfies the invariant and describes the empty store |
| `SlabTable.HeaderExact` | crates/rv-storage/src/persistent.rs:305-317 | a header is good exactly when it begins with RVSLAB01 and version 1 |
| `SlabTable.OpenInvalid` | crates/rv-storage/src/persistent.rs:459-499 | a file with a bad header opens as an empty store with a new header; the table is kept, so it is in step exactly when it was blank |
| `SlabTable.ForgottenReturn` | crates/rv-storage/src/persistent.rs:459-499 | the restart after that finds the slabs the table describes |
| `SlabTable.ReopenResized` | crates/rv-storage/src/persistent.rs:459-499 | reopening with another size finds the same slabs and the bytes that fit, and is sound exactly when every slab found ends inside the file |
| `Endian.LeastFirst` | crates/rv-storage/src/persistent.rs:243-277 | numbers are written least significant byte first |
| `SlabTable.RecoveryExact` | crates/rv-storage/src/persistent.rs:153-240 | a store whose table is in step: a restart recovers every slab exactly when no freed slab has an all-zero digest; otherwise it recovers a shorter prefix |
| `SlabTable.RestartReads` | crates/rv-storage/src/persistent.rs:153-240 | whatever the store held, a restart finds the slabs the table describes up to the first that is free with an all-zero digest, and is sound exactly when those are laid out |
| `SlabTable.RecoveryIndex` | crates/rv-storage/src/persistent.rs:153-240 | a store whose table is in step and that has no freed all-zero digest: the same digest index and used size are rebuilt, and every body length is lost |
| `SlabTable.CompactTable` | crates/rv-storage/src/persistent.rs:398-440 | compaction gives the table entries of live slabs their new place, whatever those entries describe, and changes no other |
| `SlabTable.CompactSyncs` | crates/rv-storage/src/persistent.rs:418-440 | after compaction the table describes the store exactly when the free slabs are all at the end of the vector with all-zero digests |
| `SlabTable.CompactSyncsNonZero` | crates/rv-storage/src/persistent.rs:418-440 | with no freed all-zero digest, exactly when no slab was free |
| `SlabRuns.RunInv` | crates/rv-storage/src/persistent.rs:376-616 | every run of alloc, extend, free and compact keeps the allocator invariant |
| `SlabRuns.RunAnswers` | crates/rv-storage/src/persistent.rs:512-657 | over every run that never allocates a live digest, `get_body` is the concatenation of the successful extends since the allocation, none while empty |
| `SlabRuns.RunSyncs` | crates/rv-storage/src/persistent.rs:376-616 | a run keeps the on-disk table in step throughout exactly when every compaction meets a store whose free slabs are all at the end with all-zero digests |
| `SlabRuns.RestartRecovers` | crates/rv-storage/src/persistent.rs:153-240 | from any store that a restart recovers, and after any run whose compactions keep the table in step and that allocates only nonzero digests and none while live, a restart rebuilds slabs, index and used size, and such runs may go on from there |
| `SlabRuns.NewFileRecoverable` | crates/rv-storage/src/persistent.rs:459-499 | a new file is such a store |
| `SlabRuns.RunDescribed` | crates/rv-storage/src/persistent.rs:243-616 | after every run the table on disk describes what the run's writes make it describe: one entry per allocation or release, new places for live slabs per compaction |
| `SlabRuns.RestartFinds` | crates/rv-storage/src/persistent.rs:153-240 | after every run, compactions and zero digests included: exactly the store a restart builds, which digests it knows, and when it is sound; the table still describes it, so further runs follow |
| `SlabTable.ReopenInv` | crates/rv-storage/src/persistent.rs:153-240 | a restart of a store whose table is in step satisfies the allocator invariant, also where it loses slabs |
| `SlabTable.ReopenExact` | crates/rv-storage/src/persistent.rs:153-240 | opening an open store whose table is in step leaves a sound store exactly when nothing was in use and a restart would find nothing |
| `SlabRestart.PackedBlock` | crates/rv-storage/src/persistent.rs:376-426 | after the moves the live slabs cover exactly the first `used` bytes of the data region, without a gap |
| `SlabRestart.CompactedRecovery` | crates/rv-storage/src/persistent.rs:376-440 | a restart after a compaction finds every slab there was before, the dropped ones too, exactly when no free one has an all-zero digest |
| `SlabRestart.CompactedInv` | crates/rv-storage/src/persistent.rs:376-440 | the restarted store is sound exactly when no recovered free slab is covered by a recovered live one; without freed all-zero digests, exactly when every free slab began behind the first `used` bytes |
| `SlabCases.RestartLosesLive` | crates/rv-storage/src/persistent.rs:172-180 | store the zero digest, store another, free the zero digest: a restart recovers nothing |
| `SlabCases.CompactDropsBlank` | crates/rv-storage/src/persistent.rs:428-440 | a freed zero digest alone in the store is dropped by compaction and the table stays in step |
| `SlabCases.CompactLosesStep` | crates/rv-storage/src/persistent.rs:428-440 | free the first of two nonzero digests and compact: the table is out of step |
| `SlabCases.RestartOverlaps` | crates/rv-storage/src/persistent.rs:398-440 | store two digests, free the first, compact, restart: a free and a live slab in the same place |
| `SlabCases.RestartForgets` | crates/rv-storage/src/persistent.rs:398-440 | store a third digest before the restart: every slab is in use, and the restart loses a live digest |
| `SlabCases.DamagedHeader` | crates/rv-storage/src/persistent.rs:459-499 | with its first byte overwritten, a file opens as empty, and with its slab when opened again |
| `SlabCases.AllocatedTwice` | crates/rv-storage/src/persistent.rs:512-548 | store a digest twice: two live slabs carry it and one is indexed |
| `SlabCases.OldBodyReturns` | crates/rv-storage/src/persistent.rs:428-435 | a run after which compaction brings back the body a digest had before it was stored again |
| `SlabCases.FreedObjectReturns` | crates/rv-storage/src/persistent.rs:428-435 | a run after which compaction brings back a freed object |
| `SlabCases.ReopenDuplicates` | crates/rv-storage/src/persistent.rs:459-499 | a new file with one slab, opened again: the slab is listed twice and the store is not sound |
| `Stevedore.MoveWithin` | crates/rv-storage/src/persistent.rs:403-409 | the in-place overlapping copy equals a copy from a snapshot |
| `Stevedore.PersistentStevedore.FindFreeSlab` | crates/rv-storage/src/persistent.rs:320-328 | the first free slab that fits |
| `Stevedore.PersistentStevedore.AllocNewSlab` | crates/rv-storage/src/persistent.rs:331-369 | a new slab behind all others, or full |
| `Stevedore.PersistentStevedore.WriteSlabEntry` | crates/rv-storage/src/persistent.rs:243-277 | the bytes of one table entry, in place |
| `Stevedore.PersistentStevedore.AllocObj` | crates/rv-storage/src/persistent.rs:512-548 | does to the array and fields what `Alloc` does to values |
| `Stevedore.PersistentStevedore.FreeObj` | crates/rv-storage/src/persistent.rs:550-575 | does what `Free` does |
| `Stevedore.PersistentStevedore.ExtendObj` | crates/rv-storage/src/persistent.rs:582-616 | does what `Extend` does |
| `Stevedore.PersistentStevedore.BodyOf` | crates/rv-storage/src/persistent.rs:642-657 | reads what `GetBody` reads |
| `Stevedore.PersistentStevedore.MoveSlabs` | crates/rv-storage/src/persistent.rs:398-426 | the loop of in-place moves equals the moves on values |
| `Stevedore.PersistentStevedore.CompactAll` | crates/rv-storage/src/persistent.rs:376-451 | does what `Compact` does |
| `Stevedore.PersistentStevedore.LoadExisting` | crates/rv-storage/src/persistent.rs:153-240 | appends the slabs and index entries that the mapped bytes describe to those there are, and sets the used size to theirs; nothing while no file is mapped |
| `Stevedore.PersistentStevedore.Close` | crates/rv-storage/src/persistent.rs:501-510 | the store is empty and no file is mapped |
| `Stevedore.PersistentStevedore.OpenFile` | crates/rv-storage/src/persistent.rs:459-499 | maps an existing file and loads it, or writes a new header; an open store keeps its slabs |
| `IndexLru.UnlinkLinked` | crates/rv-storage/src/lru.rs:185-205 | unlinking one position leaves mutual links along the rest of the path |
| `IndexLru.Lru.Insert` | crates/rv-storage/src/lru.rs:76-112 | the new key is first; the most recently vacated position is reused, else the vector grows |
| `IndexLru.Lru.Touch` | crates/rv-storage/src/lru.rs:118-144 | a position in use moves to the front; any other index changes nothing |
| `IndexLru.Lru.Remove` | crates/rv-storage/src/lru.rs:150-160 | the position leaves the list and joins the free list; its key is returned |
| `IndexLru.Lru.EvictOldest` | crates/rv-storage/src/lru.rs:165-168 | the last key of the list is removed and returned |
| `LruShards.LruShard.Unlink` | crates/rv-cache/src/lru.rs:44-68 | the neighbours of a heap node point at each other; head and tail follow |
| `LruShards.LruShard.PushTail` | crates/rv-cache/src/lru.rs:71-83 | the node becomes the tail of an acyclic list |
| `LruShards.LruShard.PopHead` | crates/rv-cache/src/lru.rs:97-113 | the oldest item leaves list and map |
| `LruShards.LruShard.Insert` | crates/rv-cache/src/lru.rs:116-141 | the digest is listed once, last, with the new timestamp |
| `LruShards.LruShard.Touch` | crates/rv-cache/src/lru.rs:144-156 | a listed digest moves to the end with the new timestamp; others are refused |
| `LruShards.LruShard.Remove` | crates/rv-cache/src/lru.rs:159-169 | exactly this digest leaves list and map |
| `ShardedLrus.OldestHead` | crates/rv-cache/src/lru.rs:271-294 | the shard head with the least timestamp is the oldest digest of all |
| `ShardedLrus.RunOrderedByUse` | crates/rv-cache/src/lru.rs:246-294 | over every run the global list is ordered by last insertion or touch, so the next victim was used before every other digest |
| `ShardedLrus.RunTracksExactly` | crates/rv-cache/src/lru.rs:246-294 | over every run a digest is tracked exactly when it was inserted and neither removed nor evicted since |
| `ShardedLrus.RunTracker` | crates/rv-cache/src/lru.rs:246-294 | a tracker driven through any run holds exactly the list the run leaves |
| `ShardedLrus.ShardedLru.Insert` | crates/rv-cache/src/lru.rs:246-251 | the digest moves to the end of one global recency list |
| `ShardedLrus.ShardedLru.Touch` | crates/rv-cache/src/lru.rs:254-258 | a tracked digest moves to the end; the clock advances either way |
| `ShardedLrus.ShardedLru.Remove` | crates/rv-cache/src/lru.rs:261-264 | the digest leaves the global list |
| `ShardedLrus.ShardedLru.EvictOldest` | crates/rv-cache/src/lru.rs:271-294 | the first of the global list is evicted, across all shards |
| `ShardedLrus.ShardedLru.Len` | crates/rv-cache/src/lru.rs:303-305 | the length of the global list |
| `Vary.BuildVaryData` | crates/rv-http/src/vary.rs:16-49 | the byte encoding of the request's value for every listed field; `VaryFields.FieldsExact` and `VaryFields.GetExact` say which those are |
| `Vary.CheckMatch` | crates/rv-http/src/vary.rs:53-104 | decides whether a request matches stored data, rejecting malformed data |
| `Vary.MatchesExactly` | crates/rv-http/src/vary.rs:16-104 | with names and original values shorter than 65536 bytes, stored data matches a request exactly when the header is not `*` and the request agrees with the original on every listed field |
| `Vary.SelfMatch` | crates/rv-http/src/vary.rs:16-104 | a response matches its own request exactly when its header is not `*` on its own and, with names shorter than 65536 bytes, every stored value is as well |
| `Vary.NeverMatchesIffStar` | crates/rv-http/src/vary.rs:16-104 | a header that as a whole is `*` never matches; when names and values are shorter than 65536 bytes, no other header never matches |
| `Vary.LongValueMisses` | crates/rv-http/src/vary.rs:38-46 | a request with a value of 65536 characters does not match the response stored for it |
| `Vary.StarInListMatches` | crates/rv-http/src/vary.rs:21-24 | `Vary: a,*` matches |
| `VaryFields.WhitespaceExact` | crates/rv-http/src/vary.rs:20-30 | what is trimmed: the 25 code points of Unicode White_Space |
| `VaryFields.TrimPads` | crates/rv-http/src/vary.rs:20-30 | trimming takes whitespace away at both ends, all of it and nothing else |
| `VaryFields.TrimExact` | crates/rv-http/src/vary.rs:20-30 | what is left is the only part with whitespace around it and none at its ends |
| `VaryFields.SplitJoins` | crates/rv-http/src/vary.rs:28 | the pieces contain no comma and joined by commas give the header back |
| `VaryFields.PiecesExist` | crates/rv-http/src/vary.rs:28 | every header is made of such pieces |
| `VaryFields.FieldsExact` | crates/rv-http/src/vary.rs:28-32 | the fields are exactly the non-empty pieces between commas, in order, without the whitespace around them |
| `VaryFields.PaddingIrrelevant` | crates/rv-http/src/vary.rs:28-32 | whitespace around commas never changes the fields |
| `VaryFields.GetExact` | crates/rv-http/src/header.rs:49-54 | the value of the first header whose name is the same up to ASCII case, else empty |
| `VaryFields.CaseIrrelevant` | crates/rv-http/src/header.rs:49-54 | names that differ only in ASCII case give the same value |
| `VaryFields.MatchesByMeaning` | crates/rv-http/src/vary.rs:16-104 | stored data matches a request exactly when the header is not a lone `*` and the request carries what the original one did for every listed name, said of pieces and first headers |
| `VaryFields.SpaceAfterComma` | crates/rv-http/src/vary.rs:28-32 | a response with `Vary: a, b` stored for `b: 1` is served to `B: 1` and not to `b: 2` |
| `Objects.ObjCore.SetFlag` | crates/rv-storage/src/objcore.rs:261-263 | one more flag, the others kept |
| `Objects.EvaluateExactly` | crates/rv-cache/src/lookup.rs:30-60 | hit exactly when unflagged and fresh, grace exactly when unflagged and within grace |
| `Objects.ScanVariants` | crates/rv-cache/src/engine.rs:121-165 | the first considered fresh variant, else the first considered one in grace, else a miss |
| `Objects.LookupExactly` | crates/rv-cache/src/engine.rs:116-173 | with names and values shorter than 65536 bytes: a hit exactly when some servable fresh variant agrees with its original request on every Vary field; grace exactly when none does but one in grace does |
| `Expiry.ExpiryManager.Insert` | crates/rv-cache/src/expire.rs:62-67 | exactly one entry is added, due at origin + ttl + grace + keep |
| `Expiry.ExpiryManager.PeekWhen` | crates/rv-cache/src/expire.rs:77-91 | the least pending deadline over all shards |
| `Expiry.ExpiryManager.Expire` | crates/rv-cache/src/expire.rs:94-110 | removes exactly the entries due and keeps all others |
| `Engine.CacheEngine.constructor` | crates/rv-cache/src/engine.rs:88-109 | an empty, consistent engine |
| `Engine.CacheEngine.Lookup` | crates/rv-cache/src/engine.rs:116-173 | answers as the variant scan does, and with request headers a hit exactly when some servable fresh variant agrees with its original request on every Vary field; a hit makes the digest most recent, a miss drops all its variants |
| `Engine.CacheEngine.Insert` | crates/rv-cache/src/engine.rs:211-275 | evicts the least recently used digests first; every digest left keeps its variants in order and the new one comes behind those of its own; recency and deadline are added; a refused store has evicted all the same |
| `Engine.CacheEngine.Remove` | crates/rv-cache/src/engine.rs:282-305 | drops all variants of a digest and counts them; their deadlines stay pending |
| `Engine.CacheEngine.Purge` | crates/rv-cache/src/engine.rs:308-316 | drops all variants of a digest; their deadlines stay pending |
| `Engine.CacheEngine.EnforceCapacity` | crates/rv-cache/src/engine.rs:393-409 | evicts exactly the surplus from the old end of the recency list, and restricts the map to what is left |
| `Engine.CacheEngine.ExpireObjects` | crates/rv-cache/src/engine.rs:326-349 | a digest survives exactly when none of its pending entries is due; afterwards no live deadline has passed |
| `Engine.DueAfterServed` | crates/rv-cache/src/expire.rs:62-67 | with no negative grace or keep, an object in grace is never due, and a fresh one only at the end of a lifetime without grace and keep |
| `Engine.CacheEngine.Bounded` | crates/rv-cache/src/engine.rs:393-409 | map and tracker hold equally many digests, at most max(1, `max_objects`) |
| `Engine.CacheEngine.Apply` | crates/rv-cache/src/engine.rs:116-349 | what one call does to every digest: its variants stay unless a miss, an eviction, a removal, a purge or a due entry drops them; the stored object, its deadline and its timestamp are added |
| `EngineRuns.RunCommands` | crates/rv-cache/src/engine.rs:116-349 | any run of calls on a new engine leaves it consistent and within its limit, with nothing overdue right after an expiry and only Vary data built from responses if that is all that was stored; its trace follows call by call |
| `EngineRuns.StaysExactly` | crates/rv-cache/src/engine.rs:116-349 | in every run an object is held from its insertion exactly until a call drops its digest: an eviction, a due entry, a removal, a purge or a lookup that missed |
| `EngineRuns.HeldForOwn` | crates/rv-cache/src/engine.rs:211-275 | whatever is held for a digest was stored for that digest |
| `EngineRuns.EvictsLeastRecent` | crates/rv-cache/src/engine.rs:393-409 | in every run, a digest that is evicted was last stored or found before every digest that is kept |
| `EngineRuns.GraceOutlivesExpiry` | crates/rv-cache/src/engine.rs:326-349 | when all pending entries of a digest are of live objects in grace, it survives an expiry run and a lookup then answers grace |
| `EngineRuns.StoredThenGraced` | crates/rv-cache/src/engine.rs:326-349 | stored at 0 for 120 seconds with 10 of grace, an object is served in grace at 121 after expiry |
| `EngineRuns.BothVariantsHit` | crates/rv-cache/src/engine.rs:250-254 | two variants of one digest stored for two requests: each request hits its own |
| `Engine.StaleDeadline` | crates/rv-cache/src/engine.rs:326-349 | on a new engine: stored, purged and stored again, an object is dropped at the purged one's deadline, 95 seconds before its own |
| `Engine.MissDropsVariants` | crates/rv-cache/src/engine.rs:165-168 | on a new engine: a request hits its fresh variant, but misses it after a request with another value for the Vary field |
| `Engine.RefusedInsertEvicts` | crates/rv-cache/src/engine.rs:211-234 | on a new engine with room for one: an insertion that storage refuses has dropped the object there was |
| `Engine.OriginsOf` | crates/rv-cache/src/engine.rs:211-275 | when every stored Vary blob was built from a response, the variants of a digest have origins, to which the contract of lookup applies |
| `RequestRuns.RequestContext.Step` | crates/rv-cache/src/request.rs:134-170 | the next state for every state and action |
| `RequestRuns.RequestContext.StateRecv` | crates/rv-server/src/runtime.rs:479-522 | the action left by `vcl_recv` |
| `RequestRuns.RequestContext.StateLookup` | crates/rv-server/src/runtime.rs:526-655 | the action left by a lookup and `vcl_hit` or `vcl_miss` |
| `RequestRuns.RequestContext.StateFetch` | crates/rv-server/src/runtime.rs:727-962 | when the backend is asked, when the response is inserted, and what is left for delivery |
| `RequestRuns.RequestContext.Iterate` | crates/rv-server/src/runtime.rs:359-422 | one iteration of the loop |
| `RequestRuns.RequestContext.HandleRequest` | crates/rv-server/src/runtime.rs:359-422 | the loop follows the run that the answers drive and stops at Done |
| `RequestSteps.FromRecv` | crates/rv-server/src/runtime.rs:479-522 | where every answer of `vcl_recv` leads: pass, pipe, synth or failure, else lookup |
| `RequestSteps.FromLookup` | crates/rv-server/src/runtime.rs:526-655 | where a lookup leads for every result and every verdict of `vcl_hit` and `vcl_miss` |
| `RequestSteps.FromFetch` | crates/rv-server/src/runtime.rs:727-962 | deliver exactly when the response arrived and `vcl_pass` or `vcl_miss` did not return synth; the backend is asked exactly when there is one and it is not abandoned |
| `RequestSteps.FromDeliver` | crates/rv-server/src/runtime.rs:396-410 | recv exactly when `vcl_deliver` asks for a restart that is left, else done |
| `RequestSteps.FromSynthOrPipe` | crates/rv-server/src/runtime.rs:411-428 | done |
| `RequestSteps.MissAsksBackend` | crates/rv-server/src/runtime.rs:526-655 | a miss that VCL does not answer, or answers with fetch, asks the backend two iterations later |
| `RequestSteps.InsertsExactly` | crates/rv-server/src/runtime.rs:913-920 | an insertion in terms of the backend's and VCL's answers: exactly a 200 with a body that arrived, not marked, after a lookup and never in Pass |
| `RequestSteps.ResponseExactly` | crates/rv-server/src/runtime.rs:727-962 | a backend response is at hand exactly when one arrived, or a delivery under VCL left an empty one |
| `RequestSteps.RestartsCounted` | crates/rv-server/src/runtime.rs:399-417 | restarts are counted exactly in deliver and synth, where one is asked for and left |
| `RequestSteps.MissFetchDeliver` | crates/rv-server/src/runtime.rs:359-422 | nothing cached and `vcl_miss` returning fetch: the backend is asked, the response inserted and delivered |
| `RequestRuns.RunExists` | crates/rv-server/src/runtime.rs:359-422 | every stream of answers drives a run |
| `RequestLookups.AnswersFromEngine` | crates/rv-cache/src/engine.rs:116-173 | a lookup tells the machine of a hit, a grace hit or nothing, and of nothing exactly when no considered servable variant is fresh or in grace |
| `RequestLookups.PassOnlyByVcl` | crates/rv-server/src/runtime.rs:535-632 | on such answers a request is in pass mode exactly when VCL returned pass from recv, hit or miss |
| `RequestLookups.LookupMarked` | crates/rv-cache/src/engine.rs:129-168 | a digest none of whose variants is servable misses and is dropped |
| `RequestLookups.HitForPassForgotten` | crates/rv-cache/src/engine.rs:140-168 | an object marked hit-for-pass evaluates to that, but the lookup answers miss and drops it |
| `RequestRuns.FetchesBounded` | crates/rv-server/src/runtime.rs:359-422 | at most `max_restarts` + 1 backend fetches in every run, whatever the answers |
| `RequestRuns.FetchesReached` | crates/rv-server/src/runtime.rs:396-410 | a VCL that restarts every delivery, with nothing cached, reaches that bound |
| `RequestRuns.MeasureStep` | crates/rv-server/src/runtime.rs:359-422 | an iteration decreases (restarts left, state rank) exactly when it does not restart a lookup |
| `RequestRuns.DoneWithin` | crates/rv-server/src/runtime.rs:359-422 | Done within five iterations per round and two per restarted lookup |
| `RequestRuns.AlwaysDone` | crates/rv-server/src/runtime.rs:359-422 | when `vcl_hit` and `vcl_miss` never restart, every run is Done within 5 * (`max_restarts` + 1) iterations |
| `RequestRuns.TerminatesIff` | crates/rv-cache/src/request.rs:161-170 | a run ends exactly when only finitely many of its lookups are restarted |
| `RequestRuns.NeverDone` | crates/rv-cache/src/request.rs:161-170 | a VCL that restarts every miss never finishes, with no restart counted |
| `RequestRuns.StoredExactly` | crates/rv-server/src/runtime.rs:913-920 | an insertion happens exactly when a cacheable response is fetched after a lookup in a run that was never in Pass |
| `RequestRuns.PassNeverStores` | crates/rv-server/src/runtime.rs:913-920 | once in Pass, a run never inserts again, across restarts |
| `RequestRuns.RequestContext.StateDeliver` | crates/rv-server/src/runtime.rs:1109-1280 | which source the response is made from, the action left, and that no response is kept when `vcl_deliver` asks for a restart |
| `RequestRuns.RespondsExactly` | crates/rv-server/src/runtime.rs:1119-1140 | how every run ends: from an object exactly when some lookup of the run found one, else from a backend response exactly when there is one, else a 500; a synthetic response; or none at all |
| `RequestRuns.HitIff` | crates/rv-server/src/runtime.rs:547-600 | the request holds an object exactly when some lookup of the run found one, across restarts |
| `RequestRuns.NothingToDeliver` | crates/rv-server/src/runtime.rs:1135-1140 | `vcl_miss` answering deliver on the first lookup ends in the 500 |
| `RequestRuns.OldObjectDelivered` | crates/rv-server/src/runtime.rs:1119-1125 | a hit restarted from `vcl_deliver` that then misses, fetches and stores still delivers the old object |
| `RequestRuns.SynthRestartRun` | crates/rv-server/src/runtime.rs:411-428 | `vcl_recv` answering synth and `vcl_synth` answering restart ends with no response |
| `RequestRuns.RestartsCapped` | crates/rv-server/src/runtime.rs:399-405 | the restart counter never exceeds `max_restarts` |
| `RequestRuns.SynthRestartLost` | crates/rv-server/src/runtime.rs:411-417 | a restart from `vcl_synth` is counted and the run ends all the same |
| `Coalesce.CoalesceManager.Check` | crates/rv-cache/src/coalesce.rs:116-147 | with a flight that has room: wait for it, with one more waiter and one more counted; with a full one: fetch, nothing changed; with none: fetch, and a new flight without waiters |
| `Coalesce.CoalesceManager.TakeEntry` | crates/rv-cache/src/coalesce.rs:153-168 | the entry leaves the map, and its channel is known |
| `Coalesce.CheckIsAtomic` | crates/rv-cache/src/coalesce.rs:116-147 | the two paths of `check` with nothing in between leave the table and give the caller the decision that the manager's method does |
| `Coalesce.WaitsExactly` | crates/rv-cache/src/coalesce.rs:116-147 | in every interleaving a check that finds an open flight waits for it exactly when it has fewer than `max_waiters` waiters, else fetches alone |
| `Coalesce.LeadsExactly` | crates/rv-cache/src/coalesce.rs:116-147 | a check that finds none opens one on the second path |
| `Coalesce.CompletionHeard` | crates/rv-cache/src/coalesce.rs:153-159 | in every interleaving, completing a digest, sending and receiving give each waiter of its open flight the result |
| `Coalesce.CancellationHeard` | crates/rv-cache/src/coalesce.rs:164-168 | cancelling gives each waiter a closed channel |
| `Coalesce.RunKeeps` | crates/rv-cache/src/coalesce.rs:116-168 | every interleaving of checks, completions, cancellations and receptions keeps the invariant |
| `Coalesce.OneFlightPerDigest` | crates/rv-cache/src/coalesce.rs:116-147 | each flight has exactly one creator and at most `max_waiters` waiters, and is open exactly while its digest's entry leads to it |
| `Coalesce.CountsWaits` | crates/rv-cache/src/coalesce.rs:118-138 | the counter is the number of calls told to wait |
| `Coalesce.HearsOwnFlight` | crates/rv-cache/src/coalesce.rs:153-168 | what a waiter hears is the result of the call that ended its own flight, or closed if that was a cancellation |
| `Coalesce.WaiterCanHear` | crates/rv-cache/src/coalesce.rs:153-159 | once the ending call has returned, every waiter of the flight can hear |
| `Coalesce.StepHistory` | crates/rv-cache/src/coalesce.rs:116-168 | a flight keeps digest, creator and waiters, ends only by a call for its digest, and ends once |
| `CoalesceEndings.EndedByCreators` | crates/rv-cache/src/coalesce.rs:116-168 | when only callers told to fetch complete or cancel, once each: the first flights of a digest are all ended for their creators exactly when none is ended for a check that fetched alone |
| `CoalesceEndings.RunExplained` | crates/rv-cache/src/coalesce.rs:116-168 | in such a run every ended flight was ended for its creator, for a lone fetch, or for the creator of an earlier flight of the digest that another check had ended |
| `CoalesceEndings.EndedForOthers` | crates/rv-cache/src/coalesce.rs:116-168 | such a run in which neither of two flights is ended for its creator |
| `Coalesce.EndingStays` | crates/rv-cache/src/coalesce.rs:153-168 | no later call changes how a flight ended |
| `Streaming.StreamingBody.Append` | crates/rv-cache/src/streaming.rs:40-48 | the bytes are appended and counted |
| `Streaming.StreamingBody.MarkComplete` | crates/rv-cache/src/streaming.rs:54-57 | the flag is set |
| `Streaming.StreamingBody.ReadFrom` | crates/rv-cache/src/streaming.rs:71-92 | all bytes from the offset on, across chunk borders |
| `Streaming.ReadersSafe` | crates/rv-cache/src/streaming.rs:40-92 | in every interleaving a reader holds a prefix of the appended bytes, and all of the input once it has seen completion |
| `Streaming.CounterLags` | crates/rv-cache/src/streaming.rs:40-48 | the byte counter never runs ahead, and lags only during an append |
| `Streaming.ProducerFinishes` | crates/rv-cache/src/streaming.rs:40-57 | undisturbed, the producer puts its whole input there, counts it and marks completion |
| `Streaming.ReadAfterComplete` | crates/rv-cache/src/streaming.rs:54-92 | a read begun after completion returns the rest and says so |
| `LogRing.RingBuffer.Write` | crates/rv-log/src/ringbuf.rs:59-65 | the ring holds the last `capacity` records of the log with one more record |
| `LogRing.RingBuffer.ReadFrom` | crates/rv-log/src/ringbuf.rs:76-104 | exactly the log from max(position, total - capacity) on |
| `LogRing.LogReader.ReadNew` | crates/rv-log/src/reader.rs:47-51 | the unread part that is left, and the position at the end |
| `LogRing.LogReader.ReadAll` | crates/rv-log/src/reader.rs:57-60 | everything that is stored |
| `LogRing.LogReader.Tail` | crates/rv-log/src/reader.rs:66-77 | the last min(count, stored) records |
| `LogRing.TailBetweenWrites` | crates/rv-log/src/reader.rs:66-77 | with records written between its two locks, `tail` returns those too, up to the capacity |
| `LogRing.TailReturnsMore` | crates/rv-log/src/reader.rs:66-77 | asked for one record with one written in between, `tail` returns two |
| `LogRing.RunReader` | crates/rv-log/src/reader.rs:47-51 | a ring and a reader driven through any run end with the log, position and records that the run of values ends with; the records are the whole log between the positions exactly when the reader keeps up |
| `LogRing.ReceivesAllIff` | crates/rv-log/src/reader.rs:47-51 | a reader receives the whole log once and in order exactly when it is never more than `capacity` behind at a read |
| `HashRing.ShardDirector.BuildRing` | crates/rv-backend/src/shard_director.rs:77-93 | the virtual nodes of all backends, sorted by hash |
| `HashRing.ShardDirector.SetBackends` | crates/rv-backend/src/shard_director.rs:167-171 | the ring of the new backends |
| `HashRing.ShardDirector.Search` | crates/rv-backend/src/shard_director.rs:123-133 | a point with the key's hash, or where it would go |
| `HashRing.ShardDirector.Walk` | crates/rv-backend/src/shard_director.rs:135-161 | the first healthy point clockwise, or none when stopping early means that all are sick |
| `HashRing.ShardDirector.ResolveWithHash` | crates/rv-backend/src/shard_director.rs:115-164 | none exactly when every point is sick; otherwise, with distinct hashes, the backend of the nearest healthy point clockwise |
| `HashRing.WalkGrows` | crates/rv-backend/src/shard_director.rs:145-147 | the clockwise distance from the key grows along the walk |
| `HashRing.NoneIffAllSick` | crates/rv-backend/src/shard_director.rs:115-164 | with at least one replica, none exactly when every backend is sick |
| `HashRing.RemovalRemapsOnlyItsKeys` | crates/rv-backend/src/shard_director.rs:77-164 | removing a backend remaps only the keys that resolved to it |
| `HashRing.SickIsAbsent` | crates/rv-backend/src/shard_director.rs:77-164 | resolving with a sick backend gives what the ring without it gives |
| `HttpDate.MarchDaysExact` | crates/rv-http/src/rfc2616.rs:245-259 | equals the counted days exactly except in January and February of year 0 |
| `HttpDate.TableDaysExact` | crates/rv-server/src/runtime.rs:1043-1051 | equals the counted days exactly in the years given by a residue test: all from 1969 on, some before |
| `HttpDate.FormulasDisagree` | crates/rv-server/src/runtime.rs:1043-1051 | the two formulas differ by a day in July 1968 |
| `HttpDate.FormulasAgree` | crates/rv-server/src/runtime.rs:1043-1051 | the two formulas give the same timestamp for a valid date exactly in those years, and so always from 1969 on |
| `HttpDate.ZeroAtEpoch` | crates/rv-http/src/rfc2616.rs:245-259 | both give 0 on the first of January 1970 |
| `HttpDate.SecondsExact` | crates/rv-http/src/rfc2616.rs:245-259 | the timestamp is 0 at midnight of the epoch and one more with every second |
| `HttpDate.OneDayLater` | crates/rv-http/src/rfc2616.rs:245-259 | the March formula grows by exactly 86400 from one calendar day to the next; the table formula exactly when its error is the same in both years, as always from 1969 on |
| `HttpDate.SecondsInOrder` | crates/rv-http/src/rfc2616.rs:245-259 | timestamps are ordered lexicographically by date and time |
| `HttpDate.NotModifiedSince` | crates/rv-server/src/runtime.rs:986-1002 | the If-Modified-Since comparison (section 7.1.1.1 of RFC 7231) is the calendar's with the March formula; with the table formula exactly when the two moments are not closer than its errors in their years differ |
| `HttpDate.ComparisonFails` | crates/rv-server/src/runtime.rs:986-1002 | 1 January 1969 counts as not modified since 31 December 1968 |

## Left out

- Sockets, TLS, HTTP/1 and HTTP/2, the fleet client, telemetry, configuration and command line tools.
- The VCL lexer, parser and interpreter: each subroutine call is an arbitrary answer.
- SHA-256, SipHash, UTF-8, gzip, regular expressions and the binary heap: foreign code.
- `FileStevedore`, `MallocStevedore`, object attributes, body ranges, ESI, bans, health probes, connection pools and statistics.
- Concurrent `lookup` and `deref` on one hash table, and concurrent calls on one `ShardedLru`, `CacheEngine` or `PersistentStevedore`: each call is one step.
- Liveness of `wait_for_data`, and weak memory order: steps interleave one at a time.
- The parsing of HTTP dates into numbers, and the rounding of timestamps to `f64`.
- Machine widths: counters and sizes are unbounded, the eviction clock is required not to reach 2^64, and slab offsets fit 64 bits.
- The engine's calls into the hash table and the stevedore: `purge` makes one balanced lookup and deref, and storage either accepts a body or refuses it.
- Headers and bodies of requests and responses: the request model keeps only what steers the machine, inserts or decides where a delivery comes from.
- Vary.MatchesExactly: says nothing of names or original values of 65536 bytes or more, whose lengths the source truncates: what such data matches depends on how its bytes read at the wrong place. `Vary.SelfMatch` covers long values against their own request.
- Vary.SelfMatch: says nothing of lists with names of 65536 bytes or more, for the same reason.
- Vary.NeverMatchesIffStar: the second half says nothing of names or values of 65536 bytes or more, for the same reason.
- Objects.LookupExactly: says nothing of origins with names or values of 65536 bytes or more, for the same reason; nor then does the last clause of `Engine.CacheEngine.Lookup`.
- Stevedore.PersistentStevedore.BodyOf: returns the bytes, not a shared buffer.
- Coalesce.CoalesceManager.TakeEntry: is the removing half of `complete` and the whole of `cancel`; sending and receiving are steps of the interleaving model.
- HashRing.ShardDirector.Walk: a backend's health does not change during one call.
