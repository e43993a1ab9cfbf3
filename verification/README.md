# Verified model of the GDBM engine and of five algorithms of the Unicon distribution

The main part models the key/value store in `unicon/src/gdbm`: an extendible-hashing directory over buckets with
open addressing, a file-space allocator with free lists in every bucket, in the header and on an on-disk stack, and
a write-back bucket cache with a one-pair cache per bucket. The class `Engine.Gdbm` has the fields of the C handle,
and its methods do what the C functions do, step by step (the few steps that are taken in another order are named at
the end). The theorem at the top (`Sessions.Run`,
`Sessions.RunSessions`) is that the whole stack is a plain map from keys to values: over every run of stores,
deletions, fetches and membership tests, with the file closed and opened again at any points, every answer and the
final contents are those of the map.

The file is a sequence of atoms, each a byte of user data or one byte of a record that was written in one piece. A
ghost field `books` holds the logical state: the buckets and their hash prefixes, the free extents, the avail
stack, the elements whose records are in the file, what is in transit between owners during an update, what has
been given up (fragments, and entries lost by halving a table of odd length), which images on disk are stale, and
the map. The invariant `State.Sound` says that every byte below `next_block` has exactly one owner, that everything
not stale can be read back from the file, that the elements' records hold the map, and that the avail stack is on
disk. `Lookup.Mapped` says that directory, buckets and elements belong together, `Caching.Coherent` that the cache
is transparent.

| module | content |
|---|---|
| `Base`, `StringHash`, `Layout` | bytes, powers of two, the hash, the records and the file |
| `FreeList`, `Space` | sorted free tables, first fit, halving; free space and its exact balance |
| `HashTable`, `Directory` | probing, back-shift deletion, redistribution; directory, doubling, splitting |
| `Ledger`, `Extents` | ownership of every byte; pairwise disjoint extents and conservation of bytes |
| `State`, `Steps`, `Caching`, `Lookup`, `Updates`, `Splitting`, `Room` | what each elementary change keeps |
| `Iteration`, `Opening` | visiting all keys; the initial file and what a file determines |
| `EngineFacts`, `Engine` | the handle and its operations |
| `Sessions` | whole runs, reopening, exactly-once iteration, the copy loop of a reorganization |
| `Collisions` | when keys share a hash, and runs that put too many of them into one bucket |
| `Bcd`, `DecimalSize`, `LargeInt` | `lgconv.c`: decimal conversion by BCD additions on machine words, in buffers of the size computed |
| `Preprocessor`, `ExpansionLaws` | `ipp.c`: macro expansion with a stack of buffers; what it does to each kind of token |
| `Getopt` | `getopt.c`: option scanning that permutes its arguments in place |
| `Coswitch` | `pthreadcoswitch.c`: co-expression switches under every interleaving of threads |
| `Paths` | `mlocal.c`: path names put in canonical form in place |

Where the code and its own remarks differ, the model follows the code:

- `gdbmstore.c:48-52` says that 0 is returned when a present key is not replaced; the code returns 1.
- `falloc.c:204-205` calls the push a split in halves; when the table has an odd number of entries its last one is
  dropped (`FreeList.LastIfOdd`).

## Model

| member | source | states |
|---|---|---|
| `StringHash.Hash` | unicon/src/gdbm/hash.c:41-62 | the hash of a key is a 31-bit number |
| `Layout.WriteReadsBack` | unicon/src/gdbm/gdbmstore.c:151-157 | bytes written at an offset read back the same, whatever was there and wherever the file ended |
| `Layout.HoldsUnique` | unicon/src/gdbm/gdbmdefs.h:65-114 | a place in the file holds at most one record image, so what is read back is what was written; the bytes of a record are named by the record and their offset in it |
| `FreeList.FitIndex` | unicon/src/gdbm/falloc.c:290-295 | first entry at least as large as the request: none before it is, and it is |
| `FreeList.FirstFitIsBestFit` | unicon/src/gdbm/falloc.c:270-311 | in a table sorted by size, the entry found first is a smallest one that fits, and if none is found none fits |
| `FreeList.GetElem` | unicon/src/gdbm/falloc.c:277-311 | in place on the table: exactly the first fitting entry leaves and the rest keep their order, or the zero element comes back and nothing changes |
| `FreeList.PutElem` | unicon/src/gdbm/falloc.c:317-352 | in place on the table: the element is inserted before the first entry not smaller, unless it is a fragment; the result says which |
| `FreeList.PutGood` | unicon/src/gdbm/falloc.c:317-352 | insertion keeps a table sorted and free of fragments |
| `FreeList.PutKeepsAll` | unicon/src/gdbm/falloc.c:317-352 | insertion adds the new element and nothing else, and loses nothing |
| `FreeList.CoverPut` | unicon/src/gdbm/falloc.c:317-352 | byte by byte, an insertion adds the coverage of the new extent only |
| `FreeList.CoverRemove` | unicon/src/gdbm/falloc.c:301-308 | byte by byte, taking an entry out removes the coverage of that extent only |
| `FreeList.SplitTable` | unicon/src/gdbm/falloc.c:245-253 | the halving loop, in place: odd positions go to the new block, even ones close up, counts are halved |
| `FreeList.HalvesAre` | unicon/src/gdbm/falloc.c:245-253 | every entry at an odd place is at half that place in the new block, every one at an even place in the table, and the last of an odd number is in neither |
| `FreeList.CoverHalves` | unicon/src/gdbm/falloc.c:245-253 | every byte covered by the table is covered by one of the two halves, or by the last entry of a table of odd length, which is dropped |
| `FreeList.HalvesGood` | unicon/src/gdbm/falloc.c:245-253 | both halves are sorted and free of fragments |
| `Space.HalvedBalanced` | unicon/src/gdbm/falloc.c:206-253 | halving the header table and stacking the block at its new place moves free space but neither gains nor loses any, the dropped entry counted |
| `Space.PoppedBalanced` | unicon/src/gdbm/falloc.c:176-201 | popping replaces the empty header table by the stacked one; only the block's own extent ceases to be free space, and the rest of the stack is intact |
| `Space.ChainFrame` | unicon/src/gdbm/falloc.c:186-201 | the avail stack on disk depends on the bytes of its own blocks only |
| `Space.BalancedTrans` | unicon/src/gdbm/falloc.c:66-166 | exact balances of free space compose |
| `Engine.Gdbm.GetBlock` | unicon/src/gdbm/falloc.c:365-388 | the file grows by the fewest whole blocks that hold the request, and the extent is exactly the new part |
| `Engine.Gdbm.PullOne` | unicon/src/gdbm/falloc.c:403-410 | one entry goes from the header to the bucket, and no header entry is larger |
| `Engine.Gdbm.PushOne` | unicon/src/gdbm/falloc.c:418-421 | one entry goes from the bucket to the header, and no bucket entry is smaller |
| `Engine.Gdbm.AdjustBucketAvail` | unicon/src/gdbm/falloc.c:393-423 | how full the bucket list and the header list are afterwards, with free space exactly preserved and no table overflowing; what the bucket has got is at least as large as all that stays in the header, what it has given at most as large as all that it keeps, and nothing else has changed |
| `Engine.Gdbm.TakeFromHeader` | unicon/src/gdbm/falloc.c:86-91 | the first best fitting header entry if one fits, else the fewest new blocks at the end of the file; the header afterwards is given exactly |
| `Engine.Gdbm.PushAvailBlock` | unicon/src/gdbm/falloc.c:206-266 | on a full table, with its recursion through the release of the remainder: free space is exactly preserved, what is dropped is the last entry of the table left after the take if that has odd length and nothing otherwise, what is given up as a fragment is the remainder if that is too small and nothing otherwise, the stack on disk is longer by a block with every second entry, the file is written only in free space, and the table has room |
| `Engine.Gdbm.PopAvailBlock` | unicon/src/gdbm/falloc.c:176-201 | the header table is the one on top of the stack, read back from the file, and also lists the place it came from; free space is exactly preserved |
| `Engine.Gdbm.TakeExtent` | unicon/src/gdbm/falloc.c:74-94 | a best fitting extent of the bucket if one fits, which leaves the header alone; else a best fitting one of the header table, popped from the stack first if the table is empty, and the file does not grow; else the fewest new blocks at the end; exactly that extent ceases to be free, and nothing is given up |
| `Engine.Gdbm.FreeSpace` | unicon/src/gdbm/falloc.c:116-166 | exactly the given extent becomes free space, or is given up whole if it is no larger than IGNORE_SIZE, in the bucket if it is small and there is room; which entry a halving of a full header table drops and which fragment it gives up is stated exactly, and nothing else is lost; when the header changes, entries are evened out; no table overflows, and the mutual recursion with the push ends |
| `Engine.Gdbm.AllocSpace` | unicon/src/gdbm/falloc.c:66-107 | exactly n bytes at the result cease to be free space; where they are, the fragment given up and the entry dropped are those of the extent taken and of the release of its rest; the file is written only where it was free |
| `Engine.Gdbm.Alloc` | unicon/src/gdbm/falloc.c:66-107 | the file stays well formed with the new extent in transit, so it overlaps nothing; every stored record reads the same; the fragment given up and the entry dropped, at most one each, are stated exactly |
| `Engine.Gdbm.Free` | unicon/src/gdbm/falloc.c:116-166 | an extent in transit becomes free; the file stays well formed and every stored record reads the same; the fragment given up and the entry dropped, at most one each, are stated exactly |
| `Steps.StepTiled` | unicon/src/gdbm/falloc.c:66-166 | an exactly balanced step of the allocator keeps every byte owned exactly once |
| `Steps.SpaceStep` | unicon/src/gdbm/falloc.c:66-266 | such a step keeps the whole file well formed and leaves every record readable |
| `Extents.OwnersDisjoint` | unicon/src/gdbm/falloc.c:66-266 | header, directory, buckets, records, free extents of buckets, header and stack, the stacked blocks, extents in transit and those given up: no byte belongs to two of them, and none at or beyond next_block to any |
| `Extents.EveryByteOwned` | unicon/src/gdbm/falloc.c:66-266 | every byte below next_block belongs to one of them |
| `Extents.BytesAddUp` | unicon/src/gdbm/falloc.c:66-266 | the sizes of all of them add up to next_block: bytes are conserved |
| `Extents.SpaceAccount` | unicon/src/gdbm/falloc.c:116-266 | across one allocation or release, tracked free bytes change by the extent, the growth of the file, at most one fragment of at most IGNORE_SIZE bytes and at most one dropped entry, and by nothing else |
| `HashTable.FirstEmpty` | unicon/src/gdbm/gdbmstore.c:134-136 | the probe loop ends at the first empty slot after the home position; all slots before it on the walk are taken |
| `HashTable.InsertSlot` | unicon/src/gdbm/bucket.c:233-236 | in place: the table gains exactly the element, and every element stays reachable from its home |
| `HashTable.PlaceKeepsProbe` | unicon/src/gdbm/gdbmstore.c:134-140 | filling the first empty slot of a probe walk keeps every element reachable |
| `HashTable.DeleteAt` | unicon/src/gdbm/gdbmdelete.c:75-96 | in place: exactly the deleted element goes and every other one stays reachable from its home, even in a full table; the loop ends by total displacement and distance to the hole |
| `HashTable.HoleStart` | unicon/src/gdbm/gdbmdelete.c:75-81 | emptying the slot establishes the loop invariant |
| `HashTable.HoleStay` | unicon/src/gdbm/gdbmdelete.c:82-95 | an element whose walk does not cross the hole may stay |
| `HashTable.HoleMove` | unicon/src/gdbm/gdbmdelete.c:85-94 | moving an element into the hole, under exactly the condition of the code, keeps the invariant with the hole at its old place |
| `HashTable.MoveShrinks` | unicon/src/gdbm/gdbmdelete.c:91-93 | every move lowers the total displacement, so the loop ends |
| `HashTable.HoleDone` | unicon/src/gdbm/gdbmdelete.c:82-83 | when the scan meets an empty slot or the hole, every element is reachable |
| `HashTable.Redistribute` | unicon/src/gdbm/bucket.c:228-238 | the elements of a full bucket are dealt out to two tables by one hash bit: the same multiset in all, each half with its bit, each element reachable |
| `HashTable.BagPosition` | unicon/src/gdbm/gdbmstore.c:133-143 | an element that is stored once has one position |
| `Directory.DirectoryFinds` | unicon/src/gdbm/findkey.c:103-105 | a stored element is in the bucket that the top bits of its hash select |
| `Directory.EveryBucketListed` | unicon/src/gdbm/bucket.c:264-272 | every bucket has a directory entry |
| `Directory.DoubleDirectory` | unicon/src/gdbm/bucket.c:204-210 | each entry of the old directory fills two neighbouring ones of the new directory |
| `Directory.DoublingKeeps` | unicon/src/gdbm/bucket.c:199-226 | doubling keeps every bucket on exactly the aligned block of entries that its prefix selects |
| `Directory.Retarget` | unicon/src/gdbm/bucket.c:264-272 | the two halves of the bucket's block, and no other entry, are pointed at the new buckets |
| `Directory.SplitKeepsDirectory` | unicon/src/gdbm/bucket.c:264-272 | with the new entries, every bucket has exactly the aligned block that its (longer) prefix selects |
| `Directory.HalfPrefix` | unicon/src/gdbm/bucket.c:228-238 | the elements dealt to a half have its longer prefix |
| `Directory.SplittingHelpsIff` | unicon/src/gdbm/bucket.c:168-309 | some depth up to 31 separates an element of the bucket from the next hash if and only if some element has a hash different from it: exactly then the splitting loop can make room |
| `Room.RoomSeparable` | unicon/src/gdbm/bucket.c:168-168 | if fewer than bucket_elems stored keys share the hash of a new key, a full bucket for it holds an element with another hash |
| `Room.PeersBounded` | unicon/src/gdbm/gdbmopen.c:266-268 | no well formed database holds more than bucket_elems keys with one hash |
| `Room.RoomNeeded` | unicon/src/gdbm/bucket.c:168-309 | the room condition of an insertion is necessary: any database that holds the new key besides the old ones satisfies it |
| `Room.SplittingHelpsIffRoom` | unicon/src/gdbm/bucket.c:168-309 | a full bucket in a database: some depth up to 31 tells one of its elements from the key exactly if the database has room for the key |
| `Collisions.SameHashIff` | unicon/src/gdbm/hash.c:41-62 | two keys have the same hash exactly if their lengths, times a constant, and shifted signed characters add up to the same modulo 2^31: the last scrambling is a bijection |
| `Collisions.TwinsCollide` | unicon/src/gdbm/hash.c:54-56 | 128 keys of six characters with one hash |
| `Collisions.SinglesCollide` | unicon/src/gdbm/hash.c:54-56 | as many keys with one hash as are wanted |
| `Collisions.CrowdFits` | unicon/src/gdbm/bucket.c:168-309 | keys with one hash can all be inserted into a new database exactly if they are no more than a bucket has elements |
| `Collisions.SomeRunTooLong` | unicon/src/gdbm/bucket.c:168-309 | so the room condition can be violated, for every bucket size: a run of insertions whose last one has no room while all before have |
| `Collisions.ThirteenTwins` | unicon/src/gdbm/gdbmopen.c:265-268 | with blocks of 512 bytes a bucket has twelve elements, and the thirteenth of those six-character keys has no room |
| `State.FrameContent` | unicon/src/gdbm/gdbmstore.c:151-157 | writing outside the protected bytes leaves every record, and so the map, as it was |
| `Caching.WriteBack` | unicon/src/gdbm/bucket.c:320-337 | writing a bucket to its own place makes it clean on disk and disturbs nothing else |
| `Caching.WriteDirectory` | unicon/src/gdbm/update.c:91-102 | writing the directory to its place makes it clean on disk and disturbs nothing else |
| `Caching.WriteHeader` | unicon/src/gdbm/update.c:39-55 | writing the header to the start of the file makes it clean on disk and disturbs nothing else |
| `Caching.WrittenSlot` | unicon/src/gdbm/bucket.c:334-336 | after a write-back, the cache is still coherent: nothing that is stale on disk is unmarked |
| `Caching.LoadedSlot` | unicon/src/gdbm/bucket.c:99-107 | replacing a clean slot keeps the cache coherent: no update is lost and no bucket is cached twice |
| `Engine.Gdbm.WriteBucket` | unicon/src/gdbm/bucket.c:320-337 | the slot's bucket is clean on disk, its remembered pair is forgotten, every record reads the same |
| `Engine.Gdbm.GetBucket` | unicon/src/gdbm/bucket.c:65-120 | the current bucket is the logical content of the directory entry, whether cached or read; file and logical state do not change |
| `Engine.Gdbm.ReadIntoCache` | unicon/src/gdbm/bucket.c:99-117 | the slot after the last one read is replaced, and written back first if it had changed; the others stay |
| `Engine.Gdbm.InitCache` | unicon/src/gdbm/gdbmopen.c:423-458 | a new cache holds nothing and is coherent |
| `Engine.Gdbm.SetCacheSize` | unicon/src/gdbm/gdbmsetopt.c:51-59 | at least ten slots, and only before the first use; the contents do not depend on it |
| `Lookup.KeyInBucket` | unicon/src/gdbm/findkey.c:103-105 | a stored key has a position in the bucket that its hash selects |
| `Lookup.KeyAbsent` | unicon/src/gdbm/findkey.c:119-158 | a key at no position of that bucket is not stored |
| `Lookup.ProbeStops` | unicon/src/gdbm/findkey.c:120-123 | when the probe meets an empty slot, the key is nowhere in the bucket |
| `Lookup.QuickTestSound` | unicon/src/gdbm/findkey.c:125-130 | the tests of hash, size and first bytes never reject the element of the key |
| `Lookup.ShortcutSound` | unicon/src/gdbm/findkey.c:107-117 | when the remembered pair passes the test, its slot holds the key and its tail is the data |
| `Engine.Gdbm.ReadEntry` | unicon/src/gdbm/findkey.c:39-81 | the record of the element, from the cache or the file; the cache stays coherent |
| `Engine.Gdbm.CompareEntry` | unicon/src/gdbm/findkey.c:124-149 | whether the key is at a taken slot, by hash, size, first characters and then the record, with its data if so |
| `Engine.Gdbm.SearchBucket` | unicon/src/gdbm/findkey.c:119-158 | the slot of the key and its data, or -1 exactly when the key is not stored |
| `Engine.Gdbm.FindKey` | unicon/src/gdbm/findkey.c:90-160 | the same with the shortcut: a slot that holds the key and its data, or -1 exactly when the key is not stored |
| `Engine.Gdbm.Fetch` | unicon/src/gdbm/gdbmfetch.c:45-81 | the value of the map, or none |
| `Engine.Gdbm.Exists` | unicon/src/gdbm/gdbmexists.c:42-51 | whether the key is in the map |
| `Engine.Gdbm.EndUpdate` | unicon/src/gdbm/update.c:60-110 | given that the flags cover what is stale, afterwards nothing is: all slots are clean and the file is a complete database |
| `Engine.Gdbm.FlushBuckets` | unicon/src/gdbm/update.c:68-89 | every changed slot is written; no bucket is stale on disk |
| `Updates.PutRecord` | unicon/src/gdbm/gdbmstore.c:146-157 | attaching an element and writing its record into its extent keeps the file well formed and every other record as it was |
| `Updates.TakeRecord` | unicon/src/gdbm/gdbmstore.c:105-109 | detaching an element puts its extent in transit and keeps the file well formed |
| `Updates.WriteTwice` | unicon/src/gdbm/gdbmstore.c:151-157 | writing key and content one after the other is writing the record |
| `Updates.InsertDone` | unicon/src/gdbm/gdbmstore.c:133-161 | after an insertion: file, directory and cache agree with the map that has the new pair |
| `Updates.ReplaceDone` | unicon/src/gdbm/gdbmstore.c:103-161 | after a replacement, whose element kept its slot: file, directory and cache agree with the map that has the new value |
| `Updates.DeleteSettled` | unicon/src/gdbm/gdbmdelete.c:98-114 | after a deletion and the release of the record: directory and cache agree with the smaller map |
| `Splitting.SplitTiled` | unicon/src/gdbm/bucket.c:240-307 | giving the halves their places and the old bucket's place to a free list keeps every byte owned exactly once |
| `Splitting.SplitMapped` | unicon/src/gdbm/bucket.c:228-272 | after a split, the same elements are where their hashes select them |
| `Splitting.SplitCoherent` | unicon/src/gdbm/bucket.c:275-307 | after a split the cache is coherent: the halves are marked, the old slot is free |
| `Splitting.DivideAvail` | unicon/src/gdbm/bucket.c:246-307 | the shares of the halves in the free extents, the fresh block and the old bucket's own place; nothing is lost and no list overflows |
| `Splitting.DividedIs` | unicon/src/gdbm/bucket.c:246-307 | which those shares are: the fresh block goes to the second half, the old place to the half not needed next, all other extents to the first half, but a smallest of six to the second |
| `Splitting.MoveDirectory` | unicon/src/gdbm/bucket.c:213-225 | the larger directory takes its new place and the old place is in transit; the file stays well formed |
| `Splitting.CanDeepen` | unicon/src/gdbm/bucket.c:168-189 | a full bucket with some element of another hash is not yet at depth 31 |
| `Splitting.FullHalf` | unicon/src/gdbm/bucket.c:168-168 | a half that is full again holds all the elements |
| `Splitting.NextHalf` | unicon/src/gdbm/bucket.c:291-307 | the next hash selects one of the two halves |
| `Engine.Gdbm.PickSlot` | unicon/src/gdbm/bucket.c:170-188 | the slot after the last one used, or the one after that if it is the current one, written back if it had changed; no other slot changes |
| `Engine.Gdbm.ReplaceBucket` | unicon/src/gdbm/bucket.c:240-307 | the two slots get the halves with exactly their shares of the free extents, the old slot is free, and the half that the next hash selects is current |
| `Engine.Gdbm.DoubleDir` | unicon/src/gdbm/bucket.c:199-226 | the directory is doubled in a new place, the old place is in transit, every bucket and element is where it was |
| `Engine.Gdbm.SplitOnce` | unicon/src/gdbm/bucket.c:168-309 | one round: the bucket is replaced by two of depth one more with the same elements in all, the current one is that of the next hash, and no record is touched |
| `Engine.Gdbm.SplitRounds` | unicon/src/gdbm/bucket.c:168-309 | the rounds of the loop: each doubling of the directory leaves one outgrown directory to free, in the order of the two arrays |
| `Engine.Gdbm.Split` | unicon/src/gdbm/bucket.c:127-314 | the loop ends with room in the current bucket and depth at most 31, at most 25 outgrown directories are freed (so the arrays of 31 suffice), and elements, records and the extent in transit are as before |
| `Engine.Gdbm.SwapSpace` | unicon/src/gdbm/gdbmstore.c:103-122 | the old record is freed before the new space is allocated; no other record changes |
| `Engine.Gdbm.PutNew` | unicon/src/gdbm/gdbmstore.c:133-161 | the new pair is in the map, its element where probing finds it |
| `Engine.Gdbm.Store` | unicon/src/gdbm/gdbmstore.c:54-167 | -1 for a reader or a missing datum, 1 for a present key that may not be replaced, both without any change; else 0, and the map has exactly the new pair in addition or in place |
| `Engine.Gdbm.Delete` | unicon/src/gdbm/gdbmdelete.c:40-119 | -1 for a reader or a missing key, without any change; else 0, and exactly that key is gone |
| `Engine.Gdbm.RemoveElement` | unicon/src/gdbm/gdbmdelete.c:72-96 | the element leaves its bucket, the others stay reachable, and its extent is in transit |
| `Iteration.Contiguous` | unicon/src/gdbm/gdbmseq.c:64-68 | the directory entries of one bucket are adjacent |
| `Iteration.RemainingIs` | unicon/src/gdbm/gdbmseq.c:64-76 | what is left to visit after a key does not depend on which of its bucket's entries the visit stands at |
| `Iteration.AllKeysAhead` | unicon/src/gdbm/gdbmseq.c:107-111 | before the first position, all stored keys are ahead |
| `Iteration.FoundGone` | unicon/src/gdbm/gdbmseq.c:55-78 | a key that has been visited is not ahead any more |
| `Engine.Gdbm.GetNextKey` | unicon/src/gdbm/gdbmseq.c:44-89 | the next key ahead, or none exactly when none is ahead |
| `Engine.Gdbm.FirstKey` | unicon/src/gdbm/gdbmseq.c:95-114 | a first key such that all others remain, or none exactly when the map is empty |
| `Engine.Gdbm.NextKey` | unicon/src/gdbm/gdbmseq.c:119-146 | the key after a stored one such that the others remain, none after the last one, a missing one or a null one |
| `Opening.DirectoryBits` | unicon/src/gdbm/gdbmopen.c:238-253 | the block size is accepted exactly if it is 8 * 2^k with k at least 3 |
| `Opening.RecordsFit` | unicon/src/gdbm/gdbmdefs.h:65-114 | in any database, the entries of the header table, of the directory, of every bucket and of every stacked half table fit into the bytes that are written for them |
| `Opening.InitialOnDisk` | unicon/src/gdbm/gdbmopen.c:217-332 | the file of a new database is a complete, empty database |
| `Opening.FileDeterminesMap` | unicon/src/gdbm/gdbmopen.c:335-403 | header, directory, buckets, elements, all free space and the map are determined by the file alone |
| `Opening.ChainUnique` | unicon/src/gdbm/falloc.c:184-193 | the avail stack is determined by the file and the header's link |
| `Engine.OpenNew` | unicon/src/gdbm/gdbmopen.c:214-334 | the block size is the caller's if that is at least 512 and the file system's otherwise; a database with the empty map, exactly if it is 8 * 2^k with 3 <= k <= 31; a bucket and the header have as many entries as fit into a block, where the size of a record counts the first entry |
| `Engine.OpenOld` | unicon/src/gdbm/gdbmopen.c:335-419 | reading back header and directory gives the same logical state |
| `Engine.Gdbm.ValidOnDisk` | unicon/src/gdbm/update.c:58-110 | between operations the file alone is a complete database with the current map: the durable half of the round trip with OpenOld |
| `Sessions.Run` | unicon/src/gdbm/gdbmstore.c:54-167 | over any run of store, delete, fetch and exists, every answer and the final contents are those of a plain map |
| `Sessions.RunSessions` | unicon/src/gdbm/gdbmopen.c:335-419 | the same over any number of sessions of writers and readers, closing and reopening the file in between |
| `Sessions.FromScratch` | unicon/src/gdbm/gdbmopen.c:214-334 | the same from an empty file on: a new database exactly if the block size asked for, or that of the file system if it is below 512, is 8 * 2^k with 3 <= k <= 31, and then every answer is that of a plain map that starts empty, and the file that is left is a database with the contents of that map |
| `Sessions.PlainRunSplit` | unicon/src/gdbm/gdbmstore.c:54-167 | a run on the plain map can be cut anywhere |
| `Sessions.WritersFlat` | unicon/src/gdbm/gdbmopen.c:335-419 | where writers close and reopen the database makes no difference to any answer |
| `Sessions.ReaderKeeps` | unicon/src/gdbm/gdbmstore.c:76-82 | a session of a reader changes nothing |
| `Sessions.AllKeys` | unicon/src/gdbm/gdbmseq.c:92-146 | first key and next keys give every stored key exactly once and then end |
| `Sessions.CopyInto` | unicon/src/gdbm/gdbmreorg.c:131-160 | the copy loop into a fresh database whose buckets are at least as large succeeds and gives an equal map |
| `Bcd.PlusIsAddition` | unicon/ipl/cfuncs/lgconv.c:166-169 | addition by groups with carries is addition modulo 2^64 |
| `Bcd.MinusIsSubtraction` | unicon/ipl/cfuncs/lgconv.c:179-179 | subtraction by groups with borrows is subtraction modulo 2^64 |
| `Bcd.Times22Is` | unicon/ipl/cfuncs/lgconv.c:174-174 | multiplying carry bits by 0x16 puts 6 into their own group and 1 into the next |
| `Bcd.SpreadStart` | unicon/ipl/cfuncs/lgconv.c:166-169 | the two masked sums hold the digit sums with their overflows in the neighbouring groups |
| `Bcd.Overflows` | unicon/ipl/cfuncs/lgconv.c:170-170 | the word of overflows has a bit exactly where a group has overflowed, never where a carry was handled before |
| `Bcd.SpreadStep` | unicon/ipl/cfuncs/lgconv.c:171-176 | a round of the ripple loop handles exactly those overflows |
| `Bcd.RoundProgress` | unicon/ipl/cfuncs/lgconv.c:170-177 | every round handles a new carry, so the ripple loop ends |
| `Bcd.AddWord` | unicon/ipl/cfuncs/lgconv.c:166-179 | one word: valid BCD digits and a carry whose decimal value is that of the two words and the incoming carry |
| `LargeInt.BcdAdd` | unicon/ipl/cfuncs/lgconv.c:149-181 | for n words, also when both operands are the same words: valid BCD, value the sum, the final carry apart; nothing else changes |
| `LargeInt.TopOfWords` | unicon/ipl/cfuncs/lgconv.c:113-113 | the top digit is at least 5 exactly if doubling would overflow the current length |
| `DecimalSize.TenAboveTwo` | unicon/ipl/cfuncs/lgconv.c:81-81 | 10^103873643 is at least 2^345060773: a fraction between log10(2) and the constant of the code |
| `DecimalSize.RoundedNear` | unicon/ipl/cfuncs/lgconv.c:81-81 | rounding to a double gives a double at most half a step away |
| `DecimalSize.DigitsAtLeast` | unicon/ipl/cfuncs/lgconv.c:81-81 | rounding the product and the sum to doubles takes nothing off the number of digits |
| `DecimalSize.DigitsAtMost` | unicon/ipl/cfuncs/lgconv.c:81-81 | and adds one at most |
| `DecimalSize.DigitsSuffice` | unicon/ipl/cfuncs/lgconv.c:81-81 | the digit count that the code computes in doubles from the number of bits is enough for every number of so many bits |
| `LargeInt.GrowthFits` | unicon/ipl/cfuncs/lgconv.c:80-82 | when the buffers must grow, the number of decimal digits provides another word: bcdlen never exceeds nbcd |
| `LargeInt.AddBit` | unicon/ipl/cfuncs/lgconv.c:108-118 | one bit: the sum gains the power of two if the bit is set, the power doubles, nothing overflows, and the sum stays below the power |
| `LargeInt.Accumulate` | unicon/ipl/cfuncs/lgconv.c:80-119 | with buffers of the size computed, after all bits the sum buffer holds the value of the number in BCD |
| `LargeInt.Unpack` | unicon/ipl/cfuncs/lgconv.c:121-130 | the characters of the digits, written over the block that holds the words; no word is overwritten before it is read |
| `LargeInt.TrimmedIs` | unicon/ipl/cfuncs/lgconv.c:132-134 | a digit string without its leading zeros is the numeral of its value |
| `LargeInt.NumeralIs` | unicon/ipl/cfuncs/lgconv.c:122-134 | a numeral has its value and no leading zero |
| `LargeInt.Convert` | unicon/ipl/cfuncs/lgconv.c:60-138 | for every large integer, in buffers of the size computed: its signed decimal numeral, without leading zeros |
| `Preprocessor.Reader.NSkip` | unicon/src/common/ipp.c:816-839 | the end of a numeric constant: digits and a radix part, or digits, fraction and exponent |
| `Preprocessor.Reader.MatchQ` | unicon/src/common/ipp.c:849-863 | the matching unescaped quote, or the end of the text |
| `Preprocessor.Reader.ScanPlain` | unicon/src/common/ipp.c:287-316 | the stretch up to the next name outside numbers, literals and comments |
| `Preprocessor.PlainEnd` | unicon/src/common/ipp.c:294-315 | such a stretch is not empty and ends at a name or at the end |
| `Preprocessor.MeaningIs` | unicon/src/common/ipp.c:937-956 | looking a name up in its hash chain gives what the table defines |
| `Preprocessor.Reader.Reference` | unicon/src/common/ipp.c:924-956 | the definition and its in-use mark, if the name is defined |
| `Preprocessor.Reader.Define` | unicon/src/common/ipp.c:924-976 | a new name is added, a defined one keeps its value; whether the values clash |
| `Preprocessor.Reader.Undefine` | unicon/src/common/ipp.c:946-950 | exactly the definition of that name goes |
| `Preprocessor.MarkKeeps` | unicon/src/common/ipp.c:453-472 | setting or clearing a mark changes no definition, and the marks stay those of the names being expanded |
| `Preprocessor.Reader.PushDef` | unicon/src/common/ipp.c:453-472 | the value becomes the buffer, the old one waits; names are marked exactly while their definitions are on the stack, none twice |
| `Preprocessor.Reader.PopDef` | unicon/src/common/ipp.c:320-333 | the waiting buffer resumes and its name may be expanded again; what is still to come is unchanged |
| `Preprocessor.Reader.Scan` | unicon/src/common/ipp.c:258-318 | the first character of what is to come, or a replacement that leaves it unchanged and brings the end nearer |
| `Preprocessor.Reader.NextChar` | unicon/src/common/ipp.c:246-333 | the next number of what the line still delivers, or none exactly at its end, for mutually recursive definitions too |
| `Preprocessor.Reader.StartLine` | unicon/src/common/ipp.c:338-359 | which lines are directives, and what a line that is none makes pending; a line ends at its first NUL |
| `Preprocessor.Reader.ExpandLine` | unicon/src/common/ipp.c:246-359 | for every line that is no directive and all definitions, exactly what is delivered; it is the codes of the recursive expansion if and only if no stretch without names that the expansion reaches begins with a negative char |
| `Preprocessor.DeliveredCodes` | unicon/src/common/ipp.c:254-316 | what is delivered is the recursive expansion with each character masked to 8 bits or not, and masked throughout exactly under that condition |
| `Preprocessor.NegativeFirst` | unicon/src/common/ipp.c:264-316 | an input that fails: a line that begins with a negative char delivers that negative number first, 0xFF as -1 |
| `Preprocessor.NothingLeft` | unicon/src/common/ipp.c:275-278 | a name that is being expanded stands for itself: with all names active, the text is delivered as it is |
| `ExpansionLaws.NameLaw` | unicon/src/common/ipp.c:265-285 | a name, which is a letter or underscore and all letters, digits and underscores after it, stands for the expansion of its value without it if it is defined and not being expanded, and else for itself |
| `ExpansionLaws.QuoteEndIs` | unicon/src/common/ipp.c:849-863 | a literal ends at the first quote like its own that has an even number of backslashes before it, or with the text |
| `ExpansionLaws.LiteralLaw` | unicon/src/common/ipp.c:307-311 | a complete literal is kept as it is and what follows is expanded as it would be alone |
| `ExpansionLaws.LiteralFirst` | unicon/src/common/ipp.c:307-311 | so the expansion of a literal and a text is the literal and the expansion of the text |
| `ExpansionLaws.OpenLaw` | unicon/src/common/ipp.c:307-311 | everything behind the start of a literal without an end is kept |
| `ExpansionLaws.EscapedQuote` | unicon/src/common/ipp.c:858-861 | an example: a name behind an escaped quote inside a literal is not replaced |
| `ExpansionLaws.NumberEndIs` | unicon/src/common/ipp.c:816-839 | where a numeric constant ends, by its grammar: digits, then a radix mark and letters or digits, or a point and digits and an exponent with or without a sign |
| `ExpansionLaws.NumberLaw` | unicon/src/common/ipp.c:300-302 | a numeric constant is kept as it is and what follows is expanded as it would be alone |
| `ExpansionLaws.NumberFirst` | unicon/src/common/ipp.c:300-302 | so the expansion of a numeric constant and a text is the constant and the expansion of the text |
| `ExpansionLaws.CommentLaw` | unicon/src/common/ipp.c:303-306 | a comment is kept and reaches to the end |
| `ExpansionLaws.OtherLaw` | unicon/src/common/ipp.c:312-313 | any other character stands for itself |
| `ExpansionLaws.ExpandShift` | unicon/src/common/ipp.c:254-316 | what the rest of a text stands for does not depend on what is before it |
| `ExpansionLaws.DirectiveIs` | unicon/src/common/ipp.c:344-350 | a directive is a line whose first character that is not blank is a dollar sign without punctuation behind it, or one that begins with #line and a blank |
| `Getopt.Scanner.Exchange` | unicon/src/gdbm/getopt.c:233-253 | in place: the skipped operands and the options after them change places, the rest stays |
| `Getopt.SwappedIs` | unicon/src/gdbm/getopt.c:240-247 | saving one block, moving the other down and putting the saved one behind it interchanges them |
| `Getopt.ScanPermutes` | unicon/src/gdbm/getopt.c:255-271 | the options and operands of a scan are the arguments, each once |
| `Getopt.ScanOrder` | unicon/src/gdbm/getopt.c:153-157 | options and operands keep their order: they come from two complementary lists of increasing places in the arguments |
| `Getopt.Scanner.StillPermutation` | unicon/src/gdbm/getopt.c:353-407 | between calls the arguments are a permutation of the original ones |
| `Getopt.Scanner.PassOperands` | unicon/src/gdbm/getopt.c:355-377 | options come to the front and operands are passed over; what is ahead is unchanged |
| `Getopt.Scanner.EndOfOptions` | unicon/src/gdbm/getopt.c:379-395 | at -- the rest are operands, and -- itself counts as an option |
| `Getopt.Scanner.TakeArgument` | unicon/src/gdbm/getopt.c:591-640 | the rest of the element, or the next element if an argument is required, or an error |
| `Getopt.Scanner.Decode` | unicon/src/gdbm/getopt.c:563-642 | one option character: the next event, with the right number of elements used up |
| `Getopt.FirstEventIs` | unicon/src/gdbm/getopt.c:566-643 | what is reported for an option character, from the option string alone: the error mark for a colon and for a character that is not in it, the character without an argument, with the rest of the element, or with the next element if a single colon follows it, and for a missing argument a colon exactly if the option string begins with one |
| `Getopt.InsideIs` | unicon/src/gdbm/getopt.c:563-643 | the characters of an element are reported in order up to the first that takes an argument |
| `Getopt.ScanExplained` | unicon/src/gdbm/getopt.c:311-643 | which elements are options, arguments, the double dash or operands follows from the option string and the elements before them; the reports of a scan are those of its option elements in order, and options and operands are the elements of those kinds in order |
| `Getopt.Scanner.Next` | unicon/src/gdbm/getopt.c:311-643 | the next event of the original arguments; at the first EOF all options precede all operands, each in the original order, and optind is where the operands start |
| `Getopt.Scanner.ScanAll` | unicon/src/gdbm/getopt.c:311-643 | call after call until EOF: all events of the original arguments in order, and the arguments arranged |
| `Coswitch.StepTokens` | unicon/src/common/pthreadcoswitch.c:56-96 | every atomic action keeps: threads outside their wait plus semaphore counts make one |
| `Coswitch.StepHolders` | unicon/src/common/pthreadcoswitch.c:90-91 | before and after an action only the acting thread can be outside its wait; at the post, none is |
| `Coswitch.StepShape` | unicon/src/common/pthreadcoswitch.c:62-88 | every thread has its context when it needs it, and a context is alive unless its creator has yet to say so |
| `Coswitch.Always` | unicon/src/common/pthreadcoswitch.c:56-96 | these invariants hold throughout every interleaving |
| `Coswitch.OneRuns` | unicon/src/common/pthreadcoswitch.c:90-95 | no two co-expressions run user code at once |
| `Coswitch.CanStep` | unicon/src/common/pthreadcoswitch.c:90-91 | no wake-up is lost: user code runs or some thread can take its next step |
| `Coswitch.StepNearer` | unicon/src/common/pthreadcoswitch.c:56-96 | every action in a switch brings user code nearer |
| `Coswitch.SoonRuns` | unicon/src/common/pthreadcoswitch.c:56-96 | under every interleaving at most six actions pass in a switch before user code runs again |
| `Coswitch.NobodyExits` | unicon/src/common/pthreadcoswitch.c:93-94 | no thread let through its wait finds itself unwanted |
| `Coswitch.HandOff` | unicon/src/common/pthreadcoswitch.c:90-91 | control passes to the target of the switch under way at the post and at no other action |
| `Coswitch.PostAnswers` | unicon/src/common/pthreadcoswitch.c:75-91 | at every post, control passes to the target of the last call, made by the same thread and by no other since; a target that was said to be new was unknown at the call and has a thread |
| `Coswitch.RunIsSequential` | unicon/src/common/pthreadcoswitch.c:56-96 | whatever the interleaving, the calls are answered one after the other in their order: after k posts the target of the k-th call is in control, and at most one call is not answered yet |
| `Paths.Canonize` | unicon/src/common/mlocal.c:308-374 | the path is rewritten in place to the fold of its components; a path that is not empty never grows, and nothing behind it is touched |
| `Paths.Component` | unicon/src/common/mlocal.c:327-362 | one component: input not yet read is overwritten by a slash with a slash at most |
| `Paths.ParentTest` | unicon/src/common/mlocal.c:338-345 | the test on the written characters tells whether there is a component before .. that is not .. itself |
| `Paths.Parent` | unicon/src/common/mlocal.c:336-351 | a component .. drops the one before it exactly if there is one that is not .. itself |
| `Paths.Previous` | unicon/src/common/mlocal.c:338-343 | the start of the last component that has been written |
| `Paths.CanonParts` | unicon/src/common/mlocal.c:294-306 | leading slashes are kept, and the rest is ordinary components with .. only in front of them |
| `Paths.CanonText` | unicon/src/common/mlocal.c:308-374 | the canonical text is the leading slashes and the remaining components with one slash between any two and none at the end, or a dot |
| `Paths.SplitIs` | unicon/src/common/mlocal.c:327-362 | the components of a path are what is between its slashes: none is empty or has a slash in it, and they and the slashes make up the path |
| `Paths.CanonMeans` | unicon/src/common/mlocal.c:299-306 | in a tree without links, the canonical path leads from every directory to the place that the original leads to |
| `Paths.CanonIdempotent` | unicon/src/common/mlocal.c:308-374 | a canonical path is left as it is |

## Left out

- Layout.HoldsUnique: the bytes of a header, directory, bucket or avail block on disk are named by the record and their offset in it; the encoding of its fields in bytes is not modelled.
- Engine.Gdbm.Store: asks that fewer than `bucket_elems` stored keys share the hash of a key that a writer is about to insert. The code does not check this; without it the splitting loop of `bucket.c:168-309` runs past 31 bits. `Room.RoomNeeded` shows that the condition is necessary, `Room.SplittingHelpsIffRoom` that splitting a full bucket can help exactly under it, and `Collisions.SomeRunTooLong` and `Collisions.ThirteenTwins` are runs that violate it.
- Sessions.Run: the same condition, at each operation when its turn comes.
- Sessions.RunSessions: the same condition, at each operation when its turn comes.
- Sessions.FromScratch: the same condition, and that of `Engine.OpenNew`.
- Preprocessor.Reader.Define: names and values are C strings, without a NUL.
- Engine.Gdbm.SplitOnce: the two new tables are filled in arrays of their own and enter the cache slots, with their free lists and the directory entries, at the end of the round; the slots' addresses, which the C code sets earlier in the round, are read by nothing in between.
- Engine.Gdbm.GetBucket: a cache slot holds its bucket as a value and `cur` is its index, so `dbf->bucket` and `dbf->cache_entry->ca_bucket` cannot differ; the buffers of free slots and the freeing of remembered pairs are not modelled.
- Engine.OpenOld: files that are not complete databases, with the error codes for them, are not modelled.
- Engine.OpenNew: the file system's block size is at least 512, as the code asks of a block size that is passed in; a writer opens the file, and truncating an old one is not modelled.
- LargeInt.Convert: doubles are IEEE 754 ones of 64 bits, rounded to nearest after each operation; a number of bits that no `int` can hold is taken without rounding. Small integers, which are printed by `sprintf`, are not modelled.
- LargeInt.Unpack: reading a word from the overlaid block is modelled by cells that still stand for its eight bytes, not by byte order.
- Preprocessor.Reader.ExpandLine: what is done for a line that is a directive, files and included files, `#line` output and error messages are not modelled; definitions change between lines only, as in the code.
- Getopt.Scanner.Next: the default order and the POSIX one for short options; long options, option strings that begin with `-` or `+`, messages, and calls after EOF are not modelled.
- Coswitch.Always: failing system calls, freed contexts (`coclean` is compiled out) and named semaphores are not modelled; callers name a new co-expression, a started one or themselves.
- Paths.Canonize: no drive letters and no backslashes; the buffer has room for two characters even when the path is empty.
- Input and output are ideal and complete: no short reads or writes, no `fsync`, locks, `malloc` failure or `_gdbm_fatal`; crash atomicity is not claimed by the code.
- Integers are unbounded, except for the 31-bit hash and the 64-bit BCD words; `sizeof` is that of an LP64 machine and `char` is signed.
- Reader handles: the model's fetches and visits do not write, and stores and deletions are refused; opening modes and locks are not modelled.
- The end of `gdbm_reorganize`, which moves the new handle's fields into the old one, and `gdbm_close`, `gdbm_sync`, `gdbm_setopt` for fast mode, the dbm and ndbm wrappers and the error texts: forwarding or system calls.
- `ppm.c`, `pack.c`, graphics, sockets, console and the grammar tables are not modelled.
