# A verified model of the buffer pool and the extendible hash table

This project models the two coupled components of the repository's second project in Dafny, and proves that they keep
their promises:

* the **buffer pool**: `BufferPoolManagerInstance`, the LRU replacer it relies on, and the parallel router over several
  instances. What a client must see is a flat map from page id to contents, written `view` in the model. Eviction,
  write-back, reload, flushing and deletion must not show in it.
* the **disk-backed extendible hash table** over that pool: a directory page (global depth, and a local depth and a bucket
  page id a slot), bucket pages (two packed bitmaps and an array of pairs with tombstones), lookup, insertion with splits and
  directory doubling, removal with merges and directory shrinking. What a client must see is a finite set of pairs.

`dafny verify dfyconfig.toml` checks everything.

## How the model is layered

| file | content |
|---|---|
| `Types.dfy`, `Bits.dfy`, `Bitmap.dfy` | keys, values, ids; masks, shifts and xor on words, tied to residues modulo powers of two; flags packed eight to a byte |
| `Directory.dfy`, `DirectoryPage.dfy` | the directory as a value with its trie invariant; the page as a class over arrays whose methods are proved against that value |
| `BucketPage.dfy` | the bucket page as a class over two byte arrays and a slot array |
| `Table.dfy`, `TableLoops.dfy` | the table as a value, with one step relation for each latched critical section; the strided loops and the redistribution loop over pages |
| `LruReplacer.dfy` | list plus map, against the history of pins, unpins and evictions |
| `PoolModel.dfy`, `BufferPool.dfy` | the pool as a value with its invariant; the pool as a class |
| `ParallelPool.dfy` | the router |
| `HashTable.dfy` | the hash table as a class over the pool: both components joined |
| `SetSpec.dfy`, `Client.dfy` | the set specification, and a client that makes any sequence of calls |
| `Interleaving.dfy`, `Threads.dfy` | any number of threads on one table, interleaved at critical sections; and the same threads on the class over the pool, with the pins of several sections in play at once |

The directory invariant is stated over all hashes, not over slots: a bucket of local depth `l` is reached by exactly the
hashes that agree with any one of its hashes on the low `l` bits (`Trie`; `TrieIffSlotTrie` gives the form over slots). So
"lookup is preserved" is always an equation between two routing functions. `Low(x, d)` is the number made of the low `d` bits
of `x`; `LowIsMod` says that it is `x` modulo `2^d`.

## What is assumed

* The body of `assert(...)` is executed, as in a debug build; the unpins of the hash table live there. Each such assertion is
  proved, except the two that depend on frames and pins of others, which are treated below.
* Keys and values are arbitrary types with equality, `cmp(a, b) == 0` is equality, and the hash is an arbitrary fixed function
  to 32-bit words. `BUCKET_ARRAY_SIZE` is an arbitrary positive number; `DIRECTORY_ARRAY_SIZE` is 512, so a global depth never
  exceeds 9.
* The disk is a map from page id to contents. Page ids are unbounded. Clients fetch only pages that the pool has issued.
* A critical section under the exclusive table latch is one atomic step. One under the shared latch is two: a thread enters,
  which pins the directory page and the bucket page of its key, and later it acts on the bucket, under the bucket latch, and
  unpins both. In between other threads enter and act; a thread that needs the exclusive latch waits until nobody is inside.
  The abstract model of `Interleaving.dfy` has one step for the whole section; `Threads.dfy` refines it.
* Whoever drops the last pin on a page that was written passes `is_dirty`, unless the page is saved anyway: its frame is
  already marked dirty, or its disk copy is current. This protocol is the precondition of `UnpinPgImp`; the hash table is
  proved to keep it. It is exactly what the pool needs: `UnpinKeepsInv` is an equivalence, and by `UnsavedPageIsLost` the next
  eviction loses the write exactly when it is broken.
* Only issued pages are fetched. A page may be given a frame exactly while it has none (`InstallKeepsPartition`): an id that is
  fetched first, and issued afterwards while its page is still resident, ends up in two frames (`EarlyFetchBreaksInv`).
* Between critical sections no page of the table has an unsettled write. The table keeps this up itself; other clients may hold
  pins on its pages, as readers under the shared latch do.
* The operations of the table assert that they get the frames they ask for. An operation on a key fetches two pages, and its
  precondition `Room(Pages(key))` is exactly what both fetches need (`RoomIffFetched`). That a split also gets a third frame is
  not assumed: `SplitInsertLatched` reports the tripped assertion, which happens if and only if a split is due and no frame is
  left. For `Insert` three frames always suffice, however many splits it makes; if nobody else holds a page of the table, it
  trips if and only if a split is due and there are only two.
* Threads that are inside together add up their pins. A thread that enters needs a frame for the directory page and for each of
  the different bucket pages held then, its own included, and trips over an assertion exactly when there are fewer
  (`Threads.TakeTurn`). With `n` threads `n + 1` frames are always enough, and three for a split, so `max(3, n + 1)` suffice.
  Three do not suffice for three threads: with three frames and two lookups inside on two buckets, a lookup on a third bucket
  needs four (`ThreeReadersNeedFour`, and in general `ShortOnDistinctBuckets`).
* Nothing is said about which thread gets a latch next. A schedule that gives a thread enough turns in a row while nobody is
  inside takes its call to its return: three for each bit that its bucket does not use yet, and five more (`CallReturns`).
  After one turn of each thread inside, nobody is (`VisitorsLeave`), and the waiting thread can go on.
* `Merge` asserts that the page it deletes is not pinned by anybody else. `Remove` asks for that only when it empties a bucket
  that is then merged.

## Where the code differs from what is said about it

* The project README (lines 172-173) asks that latches are kept until `SplitInsert`; the code releases them first. The model
  follows the code. It is safe because `SplitInsert` reads the directory again and tests again whether the bucket is full.
* The project README (line 180) asks `Merge` to scan all buckets; the code looks at one. The model follows the code, and nothing
  is claimed about empty buckets that remain.
* The constructor of the hash table gives back its pins except in one case: when the pool has exactly one frame for it, the
  directory page is allocated, the bucket page is not, and the pin on the directory page stays. The contract of the
  constructor states all three cases.
* `VerifyIntegrity` never trips, but it does not see everything: a directory that passes it is a trie if and only if slots of
  one page agree on the low bits given by their depth (`TrieIffIntegrityAligned`). `IntegrityIsWeaker` is a directory that
  passes and routes wrongly.
* `LRUReplacer::Unpin` at full capacity calls `Victim` with its own mutex held, and blocks for ever. The model reports the call
  as blocked, exactly then; the pool asserts that it never is (`LastPinBelowCapacity`).
* `RemoveAt` with an index beyond the capacity flips a stray bit of the last byte, if that has one to spare, because `IsReadable`
  answers true there. No scan looks at that bit, so the stored pairs stay the same; the table never makes such a call.

## Model

| member | source | states |
|---|---|---|
| HashTable.ExtendibleHashTable.Insert | projects/project2/src/container/hash/extendible_hash_table.cpp:143-190 | succeeds iff the pair is absent and fewer than `capacity` stored pairs agree with its key on the low 9 hash bits; adds exactly its pair; a failure changes no stored pair; splits the bucket of the key exactly as often as `capacity` stored pairs still agree on the bits it uses, and at most to depth 9; pins, debts and foreign pages are restored; three frames always suffice, and with two, and nobody else holding a page of the table, the new-page assertion trips iff a split is due |
| HashTable.ExtendibleHashTable.SplitInsert | projects/project2/src/container/hash/extendible_hash_table.cpp:193-302 | the same from the second half of the mutual recursion, with the number of splits it makes |
| HashTable.ExtendibleHashTable.InsertLatched | projects/project2/src/container/hash/extendible_hash_table.cpp:144-181 | the read-latched part of an insertion over the pool is the atomic `InsertSection` on the represented table |
| HashTable.ExtendibleHashTable.SplitInsertLatched | projects/project2/src/container/hash/extendible_hash_table.cpp:194-300 | the write-latched part, with fullness tested again, is the atomic `SplitSection`: insert, fail at depth 9, or split; its new-page assertion trips iff a split is due and every frame is pinned |
| HashTable.ExtendibleHashTable.FinishSplit | projects/project2/src/container/hash/extendible_hash_table.cpp:246-295 | new page, routes, redistribution and three dirty unpins together make one `SplitStep` of the table; there is no new page iff every frame is pinned |
| HashTable.ExtendibleHashTable.SplitFull | projects/project2/src/container/hash/extendible_hash_table.cpp:219-241 | a full bucket fails iff it has depth 9, and is split otherwise; a failure leaves the table alone |
| HashTable.ExtendibleHashTable.SplitDueMeans | projects/project2/src/container/hash/extendible_hash_table.cpp:181-241 | a split is due iff the bucket is below depth 9 and `capacity` stored pairs agree with the key on the bits it uses |
| HashTable.ExtendibleHashTable.GetValue | projects/project2/src/container/hash/extendible_hash_table.cpp:115-137 | appends exactly the values of the key, once each, in the order of the slots of its home page; reports whether there is one; changes no page, and tolerates other readers' pins |
| HashTable.ExtendibleHashTable.Enter | projects/project2/src/container/hash/extendible_hash_table.cpp:116-130 | pins both pages of the key next to the pins of others; the fetch assertions trip iff all pinned pages and these two are more than there are frames |
| HashTable.ExtendibleHashTable.GetInside | projects/project2/src/container/hash/extendible_hash_table.cpp:131-136 | the rest of a lookup, with other threads holding pins: all values of the key, once each, in slot order, and both pages unpinned |
| HashTable.ExtendibleHashTable.InsertInside | projects/project2/src/container/hash/extendible_hash_table.cpp:157-178 | the rest of the first section of an insertion, with other threads holding pins, is `InsertSection` |
| HashTable.ExtendibleHashTable.RemoveInside | projects/project2/src/container/hash/extendible_hash_table.cpp:321-328 | the rest of the first section of a removal, with other threads holding pins, is `RemoveSection` |
| HashTable.ExtendibleHashTable.MergeFetched | projects/project2/src/container/hash/extendible_hash_table.cpp:346-370 | the checks of a merge decide whether it happens: then the page of the key is gone from the pool, otherwise both pages are unpinned and nothing changes |
| HashTable.ExtendibleHashTable.Remove | projects/project2/src/container/hash/extendible_hash_table.cpp:308-331 | returns true iff the pair was stored, and removes it; if that leaves its bucket empty, with a positive depth, and the other half of its class in one bucket, the bucket is gone from the table and its page from the pool, and the depth of the key drops by one; otherwise nothing but the pair changes; nobody else may hold the page that is deleted, if one is |
| HashTable.ExtendibleHashTable.RemoveLatched | projects/project2/src/container/hash/extendible_hash_table.cpp:309-328 | the read-latched part of a removal is the atomic `RemoveSection` |
| HashTable.ExtendibleHashTable.Merge | projects/project2/src/container/hash/extendible_hash_table.cpp:337-395 | the bucket of the key is dropped, its page deleted, and the depth of the key lowered by one iff it is empty, has a positive depth, and all hashes of the other half have the same depth; otherwise the table is as before; the directory ends up fully shrunk |
| HashTable.ExtendibleHashTable.FinishMerge | projects/project2/src/container/hash/extendible_hash_table.cpp:370-393 | the deletion finds the page unpinned and succeeds; the directory page goes back dirty; the table makes one merge step |
| HashTable.ExtendibleHashTable.DropPage | projects/project2/src/container/hash/extendible_hash_table.cpp:372-373 | the unpin leaves no pin, so the deletion succeeds; no page changes |
| HashTable.ExtendibleHashTable.constructor | projects/project2/src/container/hash/extendible_hash_table.cpp:26-62 | an empty table of global depth 0 on two new pages, a directory and one bucket, with all pins given back, if two frames are to be had; with one, the directory page keeps a pin; with none, nothing happens |
| HashTable.ExtendibleHashTable.GetGlobalDepth | projects/project2/src/container/hash/extendible_hash_table.cpp:401-408 | the reported depth is the maximum of the local depths |
| HashTable.ExtendibleHashTable.VerifyIntegrity | projects/project2/src/container/hash/extendible_hash_table.cpp:414-420 | never trips on a table |
| Client.Do | projects/project2/src/container/hash/extendible_hash_table.cpp:115-331 | each public operation has the effect and the answer of the set specification |
| Client.Run | projects/project2/src/container/hash/extendible_hash_table.cpp:115-395 | over every sequence of operations, the stored set and all answers are those of a set, whatever is split, merged, evicted or reloaded on the way; pins, debts and all other pages are as before |
| Threads.TakeTurn | projects/project2/src/container/hash/extendible_hash_table.cpp:115-395 | the next step of a thread on the class over the pool: entering and waiting leave the abstract state alone, and every other step is one of the interleaving model; with nobody inside, a split or merge section is passed at once; it trips iff the thread enters and the frames do not suffice for all pages held then |
| Threads.Follow | projects/project2/src/container/hash/extendible_hash_table.cpp:115-395 | any schedule of any threads, with several inside at once, is a linearisable run; pins are those of others and two for each thread inside, debts and foreign pages are restored; if it trips, a thread entered without enough frames while at least two others were inside; with `n` threads, `max(3, n + 1)` frames are enough |
| Threads.CallReturns | projects/project2/src/container/hash/extendible_hash_table.cpp:115-395 | progress: with nobody inside, at most `3 * (9 - depth of the bucket) + 5` turns in a row take a call of any thread from its beginning to its return; it records a call, one commit and a return, and answer and stored set are those of the set specification |
| Threads.PendingReturns | projects/project2/src/container/hash/extendible_hash_table.cpp:181-302 | the same from the middle of a call, be it before its first section or before a split, within one turn less |
| Threads.MergingReturns | projects/project2/src/container/hash/extendible_hash_table.cpp:329-395 | a removal that has committed returns within two turns, through its merge section |
| Threads.TurnAdvances | projects/project2/src/container/hash/extendible_hash_table.cpp:115-395 | every turn of a thread that is alone brings its call nearer to its return, and changes neither the events it will have recorded nor the stored set it will leave |
| Threads.VisitorsLeave | projects/project2/src/container/hash/extendible_hash_table.cpp:195 | a thread that waits for the exclusive latch finds nobody inside after one turn of each thread that was, first come first |
| Threads.EnterTurn | projects/project2/src/container/hash/extendible_hash_table.cpp:144-158 | a thread enters next to others; the fetch assertions trip iff the different pages held then need more frames than there are |
| Threads.RoomToEnter | projects/project2/src/container/hash/extendible_hash_table.cpp:92-112 | the frames it takes: the pins of others, the directory page, and each different bucket page once |
| Threads.EnoughFrames | projects/project2/src/container/hash/extendible_hash_table.cpp:92-112 | of `n` threads, any can enter with `n + 1` frames |
| Threads.ShortMeansCompany | projects/project2/src/container/hash/extendible_hash_table.cpp:92-112 | with three frames to spare, a thread is kept out only while two others are inside |
| Threads.DistinctHomesTakeAll | projects/project2/src/container/hash/extendible_hash_table.cpp:92-112 | the bound is attained when all buckets are different |
| Threads.ThreeReadersNeedFour | projects/project2/src/container/hash/extendible_hash_table.cpp:103-112 | two readers inside on two buckets, and a third on another one, need four frames |
| Threads.ShortOnDistinctBuckets | projects/project2/src/container/hash/extendible_hash_table.cpp:103-112 | on different buckets, with `m` threads inside, the next one trips iff there are fewer than `m + 2` frames |
| Threads.EveryScheduleIsLinearisable | projects/project2/src/container/hash/extendible_hash_table.cpp:115-395 | every configuration of every schedule keeps the invariant of the interleaving model |
| Threads.OthersStay | projects/project2/src/container/hash/extendible_hash_table.cpp:132-136 | when a thread acts and leaves, the other threads inside still hold the pages their keys are routed to |
| HashTable.SplitWhole | projects/project2/src/container/hash/extendible_hash_table.cpp:253-295 | the three pages that a split writes represent a consistent table with the same stored set; no other page is touched |
| HashTable.MergeWhole | projects/project2/src/container/hash/extendible_hash_table.cpp:372-393 | so does the one page that a merge writes |
| HashTable.MergeChecks | projects/project2/src/container/hash/extendible_hash_table.cpp:349-369 | the split image of a bucket is always another page and never shallower, so the assertions of `Merge` hold |
| HashTable.HomePage | projects/project2/src/container/hash/extendible_hash_table.cpp:86-89 | all pairs stored under a key are on the one page its masked hash selects |
| HashTable.InitialTable | projects/project2/src/container/hash/extendible_hash_table.cpp:38-57 | zeroed pages with one slot set make a consistent empty table |
| HashTable.RoomIffFetched | projects/project2/src/container/hash/extendible_hash_table.cpp:92-112 | two fetches in a row are both served iff the frames suffice for all pinned pages and these two |
| HashTable.ExtendibleHashTable.UnheldRoom | projects/project2/src/container/hash/extendible_hash_table.cpp:86-112 | if nobody holds a page of the table, the pages of a key take exactly two more frames |
| TableModel.InsertSectionCorrect | projects/project2/src/container/hash/extendible_hash_table.cpp:158-166 | the section finds room iff fewer than `capacity` stored pairs agree with the key on the bits its bucket uses; then it answers and acts as the set specification does |
| TableModel.SplitSectionCorrect | projects/project2/src/container/hash/extendible_hash_table.cpp:209-242 | a split happens iff the bucket is below depth 9 and `capacity` stored pairs agree with the key on the bits it uses; it leaves the stored set alone and deepens the bucket by exactly one bit; failing at depth 9 is right, because the bucket is then full of rivals |
| TableModel.RemoveSectionCorrect | projects/project2/src/container/hash/extendible_hash_table.cpp:322-328 | removal answers and acts as the set specification does |
| TableModel.MergeSectionCorrect | projects/project2/src/container/hash/extendible_hash_table.cpp:349-393 | merging keeps the invariant and the stored set |
| TableModel.MergeableMeans | projects/project2/src/container/hash/extendible_hash_table.cpp:349-369 | the checks of a merge pass iff the bucket is empty, has a positive depth, and every hash of the other half of its class has that depth |
| TableModel.MergeSectionMeans | projects/project2/src/container/hash/extendible_hash_table.cpp:349-393 | a merge in full, for every hash: both halves of the class get the page of the image and one bit less of depth, all others keep page and depth, and the one page is dropped; without it nothing changes |
| TableModel.StoredAtHome | projects/project2/src/container/hash/extendible_hash_table.cpp:126-130 | a pair is stored anywhere iff it is in its home bucket |
| TableModel.HomeHoldsAgreeing | projects/project2/src/container/hash/extendible_hash_table.cpp:86-89 | a bucket of depth `l` holds exactly the stored pairs whose keys agree on the low `l` hash bits |
| TableModel.AddKeepsConsistent | projects/project2/src/container/hash/extendible_hash_table.cpp:161-163 | adding a pair to its home bucket keeps the invariant and adds it to the stored set |
| TableModel.DropKeepsConsistent | projects/project2/src/container/hash/extendible_hash_table.cpp:322-324 | dropping a pair from its home bucket keeps the invariant and drops it from the stored set |
| TableModel.WidenedKeepsTrie | projects/project2/src/container/hash/extendible_hash_table.cpp:219-241 | doubling happens only when needed, is possible below depth 9, and changes no route |
| TableModel.SlotStandsFor | projects/project2/src/container/hash/extendible_hash_table.cpp:206-246 | the slot computed before doubling is still a slot of the key's bucket afterwards |
| TableModel.SplitDirectoryKeeps | projects/project2/src/container/hash/extendible_hash_table.cpp:219-268 | doubling and both loops keep the trie and its minimality, add one live page, and move no route except from the split bucket to the new page |
| TableModel.SplitHomes | projects/project2/src/container/hash/extendible_hash_table.cpp:273-288 | after a split every pair is on the page its key is routed to |
| TableModel.RedistributionKeepsPairs | projects/project2/src/container/hash/extendible_hash_table.cpp:273-288 | sharing one bucket out over two pages keeps the stored set |
| TableModel.SplitKeepsConsistent | projects/project2/src/container/hash/extendible_hash_table.cpp:219-295 | a split keeps the whole invariant and the stored set |
| TableModel.MergeLiveIds | projects/project2/src/container/hash/extendible_hash_table.cpp:372-386 | a merge removes the deleted page, and only it, from the directory |
| TableModel.MergeKeepsConsistent | projects/project2/src/container/hash/extendible_hash_table.cpp:349-391 | a merge followed by shrinking keeps the whole invariant and the stored set; the deleted page held no pair |
| TableModel.RivalsAtHome | projects/project2/src/container/hash/extendible_hash_table.cpp:220-236 | pairs that agree on the low 9 hash bits can never be separated; at depth 9 a bucket holds nothing else |
| TableModel.RoomIffFewRivals | projects/project2/src/container/hash/extendible_hash_table.cpp:220-236 | a bucket with room means fewer rivals than `capacity`; a full one of depth 9 means `capacity` rivals |
| TableLoops.DeepenSlot | projects/project2/src/container/hash/extendible_hash_table.cpp:219-241 | the depth decision of a split fails exactly at depth 9, and doubles exactly when the bucket uses all bits |
| TableLoops.PartialUpdateStep | projects/project2/src/container/hash/extendible_hash_table.cpp:257-264 | a stride of twice the high bit goes from one member of the residue class to the next, missing none |
| TableLoops.NothingBelowFirst | projects/project2/src/container/hash/extendible_hash_table.cpp:257-259 | the masked slot is the first member of its class |
| TableLoops.RedirectToNewPage | projects/project2/src/container/hash/extendible_hash_table.cpp:257-263 | the first split loop rewrites exactly the class of the split image |
| TableLoops.DeepenClass | projects/project2/src/container/hash/extendible_hash_table.cpp:264-267 | the second split loop deepens exactly the class that keeps its page |
| TableLoops.SplitComposition | projects/project2/src/container/hash/extendible_hash_table.cpp:246-267 | the two loops together split the residue class, touching no slot outside it |
| TableLoops.SplitDirectory | projects/project2/src/container/hash/extendible_hash_table.cpp:246-268 | the directory part of `SplitInsert` on the arrays is `IsSplit` |
| TableLoops.RedirectToPartner | projects/project2/src/container/hash/extendible_hash_table.cpp:376-381 | the first merge loop rewrites exactly the class of the empty bucket |
| TableLoops.LowerClass | projects/project2/src/container/hash/extendible_hash_table.cpp:382-385 | the second merge loop lowers exactly the class of its partner |
| TableLoops.MergeComposition | projects/project2/src/container/hash/extendible_hash_table.cpp:375-386 | the two loops together fuse the two classes into one class of one bit less |
| TableLoops.MergeDirectory | projects/project2/src/container/hash/extendible_hash_table.cpp:375-386 | the directory part of `Merge` on the arrays is `IsMerge` |
| TableLoops.KeyToDirectoryIndex | projects/project2/src/container/hash/extendible_hash_table.cpp:80-83 | the masked hash is its residue modulo the directory size |
| TableLoops.RoomForNext | projects/project2/src/container/hash/extendible_hash_table.cpp:279-285 | at every step of the redistribution the split page has room for the next pair and does not hold it |
| TableLoops.RedistributedStep | projects/project2/src/container/hash/extendible_hash_table.cpp:280-286 | moving one pair loses none, doubles none, and leaves none behind |
| TableLoops.Redistribute | projects/project2/src/container/hash/extendible_hash_table.cpp:271-288 | exactly the pairs that are routed elsewhere move to the split page; every insertion there succeeds |
| DirectoryModel.TrieIffSlotTrie | projects/project2/src/storage/page/hash_table_directory_page.cpp:104-112 | the invariant over all hashes is the one over live slots: equal pages exactly for equal depths and congruent indices |
| DirectoryModel.DoubledKeepsTrie | projects/project2/src/storage/page/hash_table_directory_page.cpp:32-42 | copying the live half above itself changes no route and no depth |
| DirectoryModel.CanDouble | projects/project2/src/storage/page/hash_table_directory_page.cpp:36 | doubling is possible exactly below depth 9 |
| DirectoryModel.SplitRoutes | projects/project2/src/container/hash/extendible_hash_table.cpp:246-267 | the page and the depth of every hash after a split |
| DirectoryModel.SplitKeepsTrie | projects/project2/src/container/hash/extendible_hash_table.cpp:246-267 | a split keeps the trie |
| DirectoryModel.SplitImageClass | projects/project2/src/storage/page/hash_table_directory_page.cpp:55-59 | the class of the xor-ed slot is the half of the old class that leaves |
| DirectoryModel.SplitImageIsImage | projects/project2/src/storage/page/hash_table_directory_page.cpp:55-59 | the image is a live slot that agrees on all bits of the local depth but the last |
| DirectoryModel.ImageIsElsewhere | projects/project2/src/container/hash/extendible_hash_table.cpp:356-358 | the image is another page, and never shallower |
| DirectoryModel.MergeKeepsTrie | projects/project2/src/container/hash/extendible_hash_table.cpp:375-386 | images of equal depth fuse; every other hash keeps its page |
| DirectoryModel.ShrinkOnceRoutes | projects/project2/src/storage/page/hash_table_directory_page.cpp:44-47 | under `CanShrink` both halves agree, so dropping one changes no route |
| DirectoryModel.ShrunkKeepsTrie | projects/project2/src/container/hash/extendible_hash_table.cpp:389-391 | the shrink loop changes no route and ends at a directory that cannot shrink |
| DirectoryModel.MinimalIffNotShrinkable | projects/project2/src/storage/page/hash_table_directory_page.cpp:63-70 | `CanShrink` fails exactly when the global depth is the maximum of the local depths |
| DirectoryModel.SplitKeepsMinimal | projects/project2/src/container/hash/extendible_hash_table.cpp:219-241 | a split, doubling only when needed, keeps the directory minimal |
| DirectoryModel.ClassSize | projects/project2/src/storage/page/hash_table_directory_page.cpp:143 | a residue class modulo `2^l` has `2^(g-l)` members below `2^g` |
| DirectoryModel.TrieHasIntegrity | projects/project2/src/storage/page/hash_table_directory_page.cpp:113-153 | every trie passes `VerifyIntegrity`; the counts `2^(global - local)`, one for each page, sum to `2^global` |
| DirectoryModel.PointersAddUp | projects/project2/src/storage/page/hash_table_directory_page.cpp:113-153 | the counts of any directory that passes sum to its size |
| DirectoryModel.TrieIffIntegrityAligned | projects/project2/src/storage/page/hash_table_directory_page.cpp:103-112 | what passes `VerifyIntegrity` is a trie iff slots of one page agree on the low bits given by their depth |
| DirectoryModel.ClassIsFull | projects/project2/src/storage/page/hash_table_directory_page.cpp:143 | aligned slots with the right pointer counts fill their residue class |
| DirectoryModel.IntegrityIsWeaker | projects/project2/src/storage/page/hash_table_directory_page.cpp:103-112 | an instance of the gap: four slots that pass, are not aligned, and are no trie |
| DirectoryPages.DirectoryPage.GetGlobalDepthMask | projects/project2/src/storage/page/hash_table_directory_page.cpp:30 | masking any hash yields its residue modulo the directory size |
| DirectoryPages.DirectoryPage.GetLocalDepthMask | projects/project2/src/storage/page/hash_table_directory_page.cpp:76-78 | the same for the local depth of a slot |
| DirectoryPages.DirectoryPage.GetSplitImageIndex | projects/project2/src/storage/page/hash_table_directory_page.cpp:55-59 | the image differs in the last bit of the local depth and in no other |
| DirectoryPages.DirectoryPage.IncrGlobalDepth | projects/project2/src/storage/page/hash_table_directory_page.cpp:32-42 | the two block copies give the doubled directory: slot `n + i` repeats slot `i`, stale slots above stay |
| DirectoryPages.DirectoryPage.CanShrink | projects/project2/src/storage/page/hash_table_directory_page.cpp:63-70 | true iff no live slot has the global depth |
| DirectoryPages.DirectoryPage.Shrink | projects/project2/src/container/hash/extendible_hash_table.cpp:389-391 | the loop computes `Shrunk`: it stops at the first depth that some live slot has, and passed none before |
| DirectoryPages.DirectoryPage.VerifyIntegrity | projects/project2/src/storage/page/hash_table_directory_page.cpp:113-153 | the two counting loops succeed iff depths are bounded, unique to a page, and every page has `2^(global - local)` pointers |
| Bits.LowIsMod | projects/project2/src/storage/page/hash_table_directory_page.cpp:30 | low bits are residues |
| Bits.AndMask | projects/project2/src/storage/page/hash_table_directory_page.cpp:76-78 | masking with `(1 << d) - 1` keeps the low `d` bits |
| Bits.XorBit | projects/project2/src/storage/page/hash_table_directory_page.cpp:55-59 | xor with `1 << k` flips bit `k` and no other |
| BucketPages.BucketPage.GetValue | projects/project2/src/storage/page/hash_table_bucket_page.cpp:23-35 | the scan that stops at the first unoccupied slot appends each value of the key exactly once, in slot order, and misses no slot |
| BucketPages.BucketPage.Insert | projects/project2/src/storage/page/hash_table_bucket_page.cpp:38-71 | succeeds iff there is room and the pair is absent; writes the lowest slot that is not readable, raises its two flags and no other; a failure changes no byte |
| BucketPages.BucketPage.Remove | projects/project2/src/storage/page/hash_table_bucket_page.cpp:74-93 | succeeds iff the pair is there; takes down the readable flag of its slot and no other, and changes no slot |
| BucketPages.BucketPage.RemoveAt | projects/project2/src/storage/page/hash_table_bucket_page.cpp:112-120 | leaves a tombstone: the readable flag goes down, nothing else changes; beyond the capacity a stray bit flips, and the pairs stay the same |
| BucketPages.BucketPage.IsFull | projects/project2/src/storage/page/hash_table_bucket_page.cpp:167-174 | true iff the page holds as many pairs as it has slots |
| BucketPages.BucketPage.NumReadable | projects/project2/src/storage/page/hash_table_bucket_page.cpp:177-188 | the truncated scan counts all live pairs |
| BucketPages.BucketPage.IsEmpty | projects/project2/src/storage/page/hash_table_bucket_page.cpp:191-201 | the truncated scan decides emptiness |
| BucketPages.BucketPage.SetReadable | projects/project2/src/storage/page/hash_table_bucket_page.cpp:156-164 | raises one flag of the packed bytes and no other |
| BucketPages.BucketPage.SetOccupied | projects/project2/src/storage/page/hash_table_bucket_page.cpp:134-142 | the same for the other bitmap |
| BucketPages.BucketPage.IsReadable | projects/project2/src/storage/page/hash_table_bucket_page.cpp:145-153 | reads one flag; true outside the page |
| BucketPages.BucketPage.IsOccupied | projects/project2/src/storage/page/hash_table_bucket_page.cpp:123-131 | reads one flag; false outside the page |
| BucketPages.NothingBeyond | projects/project2/src/storage/page/hash_table_bucket_page.cpp:30-32 | beyond the first unoccupied slot there is nothing to find, so scans may stop there |
| BucketPages.ValuesOnce | projects/project2/src/storage/page/hash_table_bucket_page.cpp:26-33 | the slots yield each value of a key exactly once |
| BucketPages.SlotsInOrder | projects/project2/src/storage/page/hash_table_bucket_page.cpp:25-33 | the values come from all the readable slots of the key, lowest first |
| BucketPages.FullIffCapacity | projects/project2/src/storage/page/hash_table_bucket_page.cpp:167-174 | all slots readable iff as many pairs as slots |
| BucketPages.StoreEffect | projects/project2/src/storage/page/hash_table_bucket_page.cpp:67-69 | storing in the lowest free slot keeps the occupied prefix and distinctness, and adds the pair |
| BucketPages.EraseEffect | projects/project2/src/storage/page/hash_table_bucket_page.cpp:112-120 | a tombstone keeps them and removes the pair |
| BucketPages.SamePairs | projects/project2/src/storage/page/hash_table_bucket_page.cpp:112-120 | bits beyond the capacity do not matter |
| BufferPool.BufferPoolManagerInstance.FetchPgImp | projects/project2/src/buffer/buffer_pool_manager_instance.cpp:120-169 | returns the page's current contents and changes no page; null iff the page is not pinned and every frame is; a resident page keeps its frame, another one gets the last free frame, or else the frame that has been evictable longest, which is written back iff dirty; all other frames, both lists and the disk are described |
| BufferPool.BufferPoolManagerInstance.NewPgImp | projects/project2/src/buffer/buffer_pool_manager_instance.cpp:69-118 | a fresh id reads as zeros and no other page changes; null iff every frame is pinned, and then no id is consumed; the frame is the last free one, or else the one that has been evictable longest, written back iff dirty |
| BufferPool.BufferPoolManagerInstance.UnpinPgImp | projects/project2/src/buffer/buffer_pool_manager_instance.cpp:205-228 | drops one pin iff there is one, and hands the frame to the replacer iff it was the last; the dirty flag is only ever raised; changes no page; a written page must be saved before its last pin is dropped, by this call, another holder or a flush |
| BufferPool.BufferPoolManagerInstance.DeletePgImp | projects/project2/src/buffer/buffer_pool_manager_instance.cpp:171-203 | succeeds iff the page is not pinned, and changes no page; a resident one is written back iff dirty, and its frame is zeroed and becomes the last free one |
| BufferPool.BufferPoolManagerInstance.FlushPgImp | projects/project2/src/buffer/buffer_pool_manager_instance.cpp:50-58 | succeeds iff the page is resident, and then its disk copy is current |
| BufferPool.BufferPoolManagerInstance.FlushAllPgsImp | projects/project2/src/buffer/buffer_pool_manager_instance.cpp:60-67 | afterwards the disk has the current contents of every issued page |
| BufferPool.BufferPoolManagerInstance.TakeFrame | projects/project2/src/buffer/buffer_pool_manager_instance.cpp:141-160 | the last free frame, or else the one that has been evictable longest, written back iff dirty; no page changes |
| BufferPool.BufferPoolManagerInstance.NoFrame | projects/project2/src/buffer/buffer_pool_manager_instance.cpp:75-90 | the scan over pin counts and the look at both lists agree: no frame iff every frame is pinned |
| BufferPool.BufferPoolManagerInstance.AllocatePage | projects/project2/src/buffer/buffer_pool_manager_instance.cpp:230-239 | the id is new and congruent to the index of the instance |
| BufferPool.BufferPoolManagerInstance.constructor | projects/project2/src/buffer/buffer_pool_manager_instance.cpp:23-43 | a pool without pages satisfies the invariant |
| PoolModel.UnpinnedCleanIsOnDisk | projects/project2/src/buffer/buffer_pool_manager_instance.cpp:98-105 | an unpinned clean resident page equals its disk copy, so evicting it without a write loses nothing |
| PoolModel.UnsavedPageIsLost | projects/project2/src/buffer/buffer_pool_manager_instance.cpp:212-227 | dropping the last pin and evicting keeps a write iff the frame was dirty or its disk copy current |
| PoolModel.ReleaseKeepsInv | projects/project2/src/buffer/buffer_pool_manager_instance.cpp:171-203 | writing back if dirty and freeing a frame keeps the invariant, with the view unchanged |
| PoolModel.ReleaseVictim | projects/project2/src/buffer/buffer_pool_manager_instance.cpp:97-105 | so does an eviction; the victim is not pinned |
| PoolModel.InstallKeepsInv | projects/project2/src/buffer/buffer_pool_manager_instance.cpp:161-168 | reading a page into a free frame keeps it |
| PoolModel.EarlyFetchBreaksInv | projects/project2/src/buffer/buffer_pool_manager_instance.cpp:161-168 | an id that is fetched first, and issued while its page is resident, is in two frames, and the partition fails |
| PoolModel.InstallKeepsPartition | projects/project2/src/buffer/buffer_pool_manager_instance.cpp:106-114 | giving a page a frame keeps the frame partition iff the page has none |
| PoolModel.IssueKeepsInv | projects/project2/src/buffer/buffer_pool_manager_instance.cpp:106-117 | so does issuing a fresh page |
| PoolModel.PinKeepsInv | projects/project2/src/buffer/buffer_pool_manager_instance.cpp:131-137 | pinning a resident page keeps the frame partition |
| PoolModel.MarkKeepsInv | projects/project2/src/buffer/buffer_pool_manager_instance.cpp:216-218 | marking dirty settles a debt |
| PoolModel.UnpinKeepsInv | projects/project2/src/buffer/buffer_pool_manager_instance.cpp:220-227 | dropping a pin keeps the invariant iff it is not the last one, or the page is saved |
| PoolModel.FlushKeepsInv | projects/project2/src/buffer/buffer_pool_manager_instance.cpp:50-67 | flushing any frame, a free one included, keeps the invariant |
| PoolModel.NoFrameIffAllPinned | projects/project2/src/buffer/buffer_pool_manager_instance.cpp:75-90 | no frame is free or evictable iff every frame is pinned, that is, iff as many pages are pinned as there are frames |
| PoolModel.LastPinBelowCapacity | projects/project2/src/buffer/lru_replacer.cpp:46-49 | when the pool hands a frame to the replacer, the replacer is below its capacity and does not list the frame |
| PoolModel.IssueNext | projects/project2/src/buffer/buffer_pool_manager_instance.cpp:230-239 | the counter is the next id of its residue class, and has not been issued |
| Lru.LRUReplacer.Victim | projects/project2/src/buffer/lru_replacer.cpp:21-33 | takes the frame that has been evictable longest, the last of the list; fails only when there is none |
| Lru.LRUReplacer.Pin | projects/project2/src/buffer/lru_replacer.cpp:35-42 | removes the frame from list and map, and keeps the order of the others |
| Lru.LRUReplacer.Unpin | projects/project2/src/buffer/lru_replacer.cpp:44-57 | blocks iff the replacer is full; otherwise puts the frame in front unless it is listed |
| Lru.UnpinRefines | projects/project2/src/buffer/lru_replacer.cpp:50-55 | a repeated unpin does not refresh a frame |
| Lru.PinRefines | projects/project2/src/buffer/lru_replacer.cpp:35-42 | pinning keeps the list in the order in which frames became evictable |
| Lru.VictimIsOldest | projects/project2/src/buffer/lru_replacer.cpp:28-30 | the victim is the frame that has been evictable longest |
| Lru.SinceMeans | projects/project2/src/buffer/lru_replacer.cpp:21-57 | a frame is evictable since its last unpin that found it not evictable, if it has been neither pinned nor evicted afterwards |
| Lru.RefinementIsUnique | projects/project2/src/buffer/lru_replacer.cpp:21-57 | the history of calls determines the list |
| Lru.LinkedErase | projects/project2/src/buffer/lru_replacer.cpp:37-40 | erasing through the map's iterator keeps list and map in step |
| ParallelPool.ParallelBufferPoolManager.NewPgImp | projects/project2/src/buffer/parallel_buffer_pool_manager.cpp:63-80 | the issuer is the first instance, in increasing cyclic order from the starting index, that is not fully pinned: every one from the start up to it is; null iff all are, and then no instance changes; the id is the counter of its issuer, which advances by the number of instances; it is globally new and routed back to its issuer |
| ParallelPool.ParallelBufferPoolManager.FetchPgImp | projects/project2/src/buffer/parallel_buffer_pool_manager.cpp:45-49 | the issuer serves the call; no other instance notices |
| ParallelPool.ParallelBufferPoolManager.UnpinPgImp | projects/project2/src/buffer/parallel_buffer_pool_manager.cpp:51-55 | the same for unpinning, for any id, negative ones included: dirty flag and pin count of the one frame are those of the call |
| ParallelPool.ParallelBufferPoolManager.FlushPgImp | projects/project2/src/buffer/parallel_buffer_pool_manager.cpp:57-61 | the same for flushing, for any id |
| ParallelPool.ParallelBufferPoolManager.DeletePgImp | projects/project2/src/buffer/parallel_buffer_pool_manager.cpp:82-86 | the same for deleting, for any id: the page is gone and its frame free iff it was not pinned |
| ParallelPool.ParallelBufferPoolManager.FlushAllPgsImp | projects/project2/src/buffer/parallel_buffer_pool_manager.cpp:88-93 | every issued page of every instance is on disk |
| ParallelPool.ParallelBufferPoolManager.Routing | projects/project2/src/buffer/parallel_buffer_pool_manager.cpp:40-43 | an issued id is known to the instance it is routed to, and to no other |
| ParallelPool.RoundRobinCovers | projects/project2/src/buffer/parallel_buffer_pool_manager.cpp:71-77 | the loop visits every instance |
| Interleaving.SectionKeepsInv | projects/project2/src/container/hash/extendible_hash_table.cpp:115-395 | one critical section of one thread keeps the invariant, whatever others did since the thread's last one |
| Interleaving.NextKeepsInv | projects/project2/src/container/hash/extendible_hash_table.cpp:115-395 | so does every step of every thread |
| Interleaving.EveryRunIsLinearisable | projects/project2/src/container/hash/extendible_hash_table.cpp:115-395 | in every state of every interleaving the table is consistent, stores exactly what its commits lead to, and each commit answers as a set does |
| Interleaving.ReturnHasOneCommit | projects/project2/src/container/hash/extendible_hash_table.cpp:179-189 | each returned call has exactly one commit between call and return, with its operation and its answer |
| Interleaving.NoThreadIsStuck | projects/project2/src/container/hash/extendible_hash_table.cpp:193-395 | every thread can always take its next step |
| Interleaving.SplitExists | projects/project2/src/container/hash/extendible_hash_table.cpp:219-288 | every bucket below depth 9 can be split: the step relation is not empty |
| Interleaving.MergeExists | projects/project2/src/container/hash/extendible_hash_table.cpp:337-395 | a merge section is always possible |

## Left out

- Latches, mutexes and weak memory: each call of the pool is one atomic step, and so are an exclusive section, the two fetches
  of a thread that enters a shared one, and what it does under the bucket latch with the two unpins after it. What a
  blocked call of the replacer does to other threads is not modelled.
- Physical layout: a frame holds a typed page (fresh zeros, a directory, or a bucket) instead of bytes under
  `reinterpret_cast`. The hash table copies a typed page out of its frame and back before the dirty unpin, so aliasing between
  the typed page and the frame in between is not modelled. The bitmaps are modelled at the level of bytes.
- HashTable.ExtendibleHashTable.constructor: works over one instance of the pool, not over the parallel router, and takes a
  pool whose fresh pages read as zeros.
- HashTable.ExtendibleHashTable.Insert: what is left in memory when one of its assertions trips is not described; the process
  ends there.
- HashTable.ExtendibleHashTable.GetValue: the frames for the two pages are a precondition, since the source asserts them.
- HashTable.ExtendibleHashTable.Remove: a client that holds a pin on the page to be deleted is excluded, since the source asserts
  that there is none.
- BucketPages.BucketPage.RemoveAt: an index beyond the last byte of the bitmap, where the source writes outside of it.
- BufferPool.BufferPoolManagerInstance.FetchPgImp: only for ids that the pool has issued; for others the source returns whatever
  the disk manager reads, and `EarlyFetchBreaksInv` shows that its page table can then lose a frame.
- BufferPool.BufferPoolManagerInstance.UnpinPgImp: a clean last unpin of an unsaved page is excluded; the source accepts it, and
  `UnsavedPageIsLost` says what it costs.
- ParallelPool.ParallelBufferPoolManager.UnpinPgImp: the same.
- ParallelPool.ParallelBufferPoolManager.FetchPgImp: only for issued ids, as in each instance.
- ParallelPool.ParallelBufferPoolManager.NewPgImp: the unlatched `start_idx_` under concurrency, and one disk shared by the
  instances: each instance has the part of the disk with its own ids.
- Interleaving.NoThreadIsStuck: steps are always possible, but no thread is promised to finish while others refill its bucket,
  or keep entering while it waits for the exclusive latch; `Threads.CallReturns` and `Threads.VisitorsLeave` are about schedules
  that give it the turns it needs.
- Widths of integers: page ids are unbounded; 32-bit shifts and 8-bit depths cannot overflow, since depths stay at most 9.
- Empty buckets that remain because their split image is deeper: `Merge` is deliberately not recursive.
- The disk and log managers, LSN accessors, destructors, `PrintDirectory`, `PrintBucket`, MurmurHash, `GenericKey`, `RID` and
  template instantiations: no property of the core depends on them.
- The components of the repository that are described in prose only, and the SQL homework: their sources are not part of this
  model.
