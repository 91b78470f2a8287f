# The `fum` hash table, modelled and proved in Dafny

`fum::unordered_map` and `fum::unordered_set` share one engine,
`detail::hash_table`: three mutable structures that have to agree after every
operation.

* A **Robin Hood index table**: a circular array of buckets, each holding a
  32-bit word (256 times the probe distance plus an 8-bit fingerprint, 0 for
  empty) and a node index.  Insertion compares whole words, lookup stops as soon
  as its running word exceeds the resident's, deletion shifts back.
* A **node arena** with a free list threaded through `aux`.  A node index is the
  identity of an element, and stays with it.
* A **dense iteration vector** with swap-on-erase; `aux` of a live node is its
  position there.

The project models that engine as a class, operation by operation, and the map
and set adapters on top of it.  `dafny verify dfyconfig.toml` checks it.

## The main results

* **Whole runs.**  For every finite sequence of stores, insertions, erasures (by
  key, by iterator, by range), rehashes, reservations, changes of the maximum load
  factor, clears, extractions and re-insertions of a node handle, and copies there
  and back, the container and an ordered finite map go through the same states
  with the same outcomes (`Runs.Run`).  The length of the run is not bounded; each
  operation has to leave at most 2^24 - 2 elements, and each rehash has to be one
  that leaves an empty bucket.  The oracle does not know the hash, so iteration
  order, bucket count and capacity are functions of the operations alone.  What the
  oracle does is stated independently in `Laws`: a lookup reports the last write
  (`Laws.LastWriteIsFound`), and each operation has its meaning on plain maps,
  sequences and table sizes.
* **What a run leaves in place.**  Every element stays at its node from its
  insertion until it is discarded (`Runs.NodesStay`).  After `reserve(n)` the bucket
  array is not replaced, whatever is inserted, erased, extracted or cleared, while
  there are at most `n` elements (`Runs.ReserveIsHonoured`).  Under a maximum load
  factor of at least 1/8 that nobody changes, the load stays within it
  (`Runs.LoadIsKept`).
* **History independence.**  Two tables with the same keys, hash and bucket count
  hold the same words in every bucket, whatever was inserted and erased before
  (`Canonical.WordsAreCanonical`, `Engine.HistoryIndependence`); erasing undoes
  inserting (`Runs.EraseUndoesEmplace`).
* **Probing.**  Placing, finding and backward-shift deletion keep the layout
  invariant across the wrap-around, the early exit of a lookup never misses a
  present key, and all four loops end (`Layout`, and the methods of
  `Engine.HashTable` that are proved equal to it).
* **Word width.**  Searches keep their running word within 32 bits for all
  layouts exactly up to 2^24 - 2 elements (`Width.WordsSufficeExactly`).
* **Merging.**  The destination gains what it lacked, in the source's order; the
  bound is on the union of the keys, not on the sum of the sizes
  (`Engine.HashTable.MergeFrom`).
* **Sizing.**  `rehash` and `reserve` settle on the least table size that does
  (`Sizing.RehashTargetIsLeast`).  Exactly when `rehash` leaves an empty bucket, when the capacity after
  `reserve` covers the request, and when one doubling suffices (`Sizing`).

## How the model reads the source

* The hash of a key is an arbitrary function to 64-bit values, so every pattern
  of collisions is covered; `mix_bits` is treated by itself in `MixBits`.  Key
  equality is equality.
* Load factors are real numbers.
* `buckets` is an array, replaced on rehash.  The chunks are one sequence of
  nodes whose length is a multiple of 1024 and that only grows.
* `ProbeState` is a pair of results.  Loops over the buckets are proved equal to a
  recursion on the bucket array (`Carry.Landed`, `Search.Found`, `Closed`), and the
  properties are proved about that.
* The ghost fields `keyOf`, `nodeOf`, `slots`, `gap` and `free` name the live
  nodes with their keys, the bucket of each node, an empty bucket and the free
  list; `Valid` ties them to the real fields.
* `residue` stands for what moving an element out leaves behind in its node.
  It may be anything, another key included.
* An iterator is a node index, as in the source; the end is `NULL_INDEX`.  Rehashing
  therefore keeps iterators valid, although `docs/COMPATIBILITY.md:13-18` does not
  promise it.

## Where the code does not keep its word

* `max_size()` (`include/fum/detail/hash_table.hpp:859-861`) promises room for
  2^32 - 2 elements.  The 24 bits of probe distance serve every layout only up to
  2^24 - 2 (`Width.WordsSufficeExactly`).  With 2^24 - 1 elements of one tag, placing
  another carries its word past all of them until it wraps to 0, which marks an
  empty bucket: the new key is lost (`Width.OneTooManyIsLost`).  Growing operations
  require the bound.
* With a maximum load factor above 1, `rehash` can ask for fewer buckets than
  there are elements: 15 elements at factor 2 go into 8 buckets
  (`Sizing.RehashCanOverfill`).  `Sizing.RehashLeavesGap` gives the exact condition,
  which `Rehash` requires; it always holds for factors up to 1.
* Below a factor of 1/8 a single doubling may not make room for one more element
  within the load (`Sizing.GrowthSufficesExactly`).  The table stays safe, as an
  empty bucket is left all the same.
* Copy assignment overwrites the maximum load factor without recomputing the
  capacity, and copies nothing from an empty source.  The table then goes on
  filling to the capacity of its old factor.  `CopyAssign` states exactly when
  the capacity is right afterwards; `Runs.AssignStaleCapacity` and
  `Runs.OverfillAfterAssignment` fill such a table to three times its load.
## Model

The main results come first, then what they rest on, in the order of the files.

| member | source | states |
|---|---|---|
| Runs.Run | fuzz/differential_fuzz.cpp:212-224 | for every finite sequence of operations, however long, the container and the ordered finite map agree on every outcome and on the final state; the bucket array is the old one or a new one |
| Runs.RunFromEmpty | fuzz/differential_fuzz.cpp:212-224 | the same agreement for every sequence run on a new default-constructed container, whatever its hash |
| Laws.LastWriteIsFound | fuzz/differential_fuzz.cpp:101-210 | after any run, a lookup finds the value that the last operation to concern the key wrote, or else the one it had before the run, and nothing if that operation discarded it or there was neither |
| Laws.LastTakeIsHeld | include/fum/detail/hash_table.hpp:1182-1219 | after any run, the node handle holds what the last extraction took, unless it was inserted since |
| Laws.NodesStayWhilePresent | docs/COMPATIBILITY.md:11-22 | as long as a key stays in the map and nothing is copied back, its element stays at its node |
| Laws.DefaultLoadIsKept | fuzz/differential_fuzz.cpp:94-96 | from the default-constructed container, no run takes `size / bucket_count` above 0.8 |
| Runs.NodesStay | docs/COMPATIBILITY.md:11-22 | in any run an element keeps its node until it is erased, extracted, cleared or copied back |
| Runs.ReserveIsHonoured | include/fum/detail/hash_table.hpp:1071-1073 | after `reserve(n)` at any point of a run nothing is rehashed while the size stays at most `n` |
| Runs.LoadIsKept | fuzz/differential_fuzz.cpp:94-96 | from a fixed factor of 1/8 on, no run takes the load above the maximum |
| Canonical.WordsAreCanonical | include/fum/detail/hash_table.hpp:404-452 | the words are determined by the multiset of tags |
| Engine.HistoryIndependence | include/fum/detail/hash_table.hpp:404-452 | two tables with the same keys, hash and bucket count hold the same words |
| Runs.EraseUndoesEmplace | include/fum/detail/hash_table.hpp:404-452 | erasing a key that was just added restores map, order and every word |
| Layout.LandedIsGood | include/fum/detail/hash_table.hpp:404-417 | placing ends, wraps no word, and gives a well-formed table of the old nodes and the new one with a bucket left empty |
| Layout.FoundIsRight | include/fum/detail/hash_table.hpp:421-438 | from any point on the way, a search ends at the bucket of its target if that is in the table, and reports absence otherwise |
| Layout.ErasedIsGood | include/fum/detail/hash_table.hpp:442-452 | backward-shift deletion removes exactly one node and leaves a well-formed table |
| Engine.HashTable.Locate | include/fum/detail/hash_table.hpp:421-438 | finds the bucket of exactly the live keys, for any hash function |
| Engine.HashTable.MergeFrom | include/fum/detail/hash_table.hpp:1235-1260 | the destination gains what it lacked in the source's order, the source keeps the rest, sizes add up, surviving elements keep their nodes; the bucket array grows once per added element that finds no room, and stays if all find it |
| UnorderedMap.Equals | include/fum/unordered_map.hpp:169-177 | true exactly for equal maps, whatever hashes, orders and bucket counts |
| UnorderedMap.EraseIf | include/fum/unordered_map.hpp:195-208 | judges each element once, keeps exactly the spared, counts the erased |
| Width.WordsSufficeExactly | include/fum/detail/hash_table.hpp:421-438 | every search of every table stays within 32 bits exactly when there are at most 2^24 - 2 elements |
| Sizing.RehashLeavesGap | include/fum/detail/hash_table.hpp:1055-1070 | exactly when `rehash` allocates more buckets than there are elements |
| Sizing.ReserveSuffices | include/fum/detail/hash_table.hpp:1071-1073 | exactly when the capacity after `reserve(n)` covers `n` |
| Sizing.CountIsLeast | include/fum/detail/hash_table.hpp:520-527 | the bucket count for `n` elements is the least table size whose product with the factor exceeds `n` |
| Sizing.RehashTargetIsLeast | include/fum/detail/hash_table.hpp:1055-1070 | `rehash` settles on the least table size that is not below the request and whose product with the factor exceeds the size |
| Sizing.GrowingIsLeast | include/fum/detail/hash_table.hpp:512-518 | from a factor of 1/8 on, growing element by element settles on the least larger table whose capacity holds the elements |
| Sizing.GrowthSufficesExactly | include/fum/detail/hash_table.hpp:512-518 | the load bound survives every growth exactly for factors of at least 1/8 |
| MixBits.MixIsBijective | include/fum/detail/hash_table.hpp:46-53 | mixing has a two-sided inverse on the 64-bit values |
| MixBits.MixMeaning | include/fum/detail/hash_table.hpp:46-53 | mixing is three additions without carry of each bit to the one 33 places above it, with a product modulo 2^64 between them |
| Bits.MaskedSuccessor | include/fum/detail/hash_table.hpp:329-331 | adding one under the mask `count - 1` is the circular successor for every power of two |
| Bits.ShiftedHashBound | include/fum/detail/hash_table.hpp:323-325 | the shifted 64-bit hash is a bucket index |
| Bits.ShiftDivides | include/fum/detail/hash_table.hpp:323-325 | shifting right by `a` is dividing by 2^a |
| Bits.ShiftScales | include/fum/detail/hash_table.hpp:323-325 | the shifted hash is the hash scaled from the 64-bit range to the bucket count |
| MixBits.MixIsInjective | include/fum/detail/hash_table.hpp:46-53 | different raw hashes stay different |
| MixBits.MixBits | include/fum/detail/hash_table.hpp:46-53 | the five assignments in turn |
| MixBits.FoldBits | include/fum/detail/hash_table.hpp:47 | an xor-shift adds each bit, without carry, to the one 33 places above it |
| Layout.RunBehind | include/fum/detail/hash_table.hpp:404-438 | going back from a carried word to its home, every bucket is occupied by a word that falls at most one unit a step |
| Layout.ChangeOrigin | include/fum/detail/hash_table.hpp:404-452 | the layout invariant does not depend on which empty bucket the circle is cut at |
| Layout.WordMeaning | include/fum/detail/hash_table.hpp:89-98 | a stored word is 256 times one more than the circular displacement from home, plus the fingerprint |
| Layout.NodesFit | include/fum/detail/hash_table.hpp:483-491 | a well-formed table holds fewer nodes than buckets |
| Layout.StoredBound | include/fum/detail/hash_table.hpp:89-98 | no stored distance exceeds the number of elements |
| Layout.CarriedBound | include/fum/detail/hash_table.hpp:89-98 | no running distance exceeds the number of elements plus one |
| Layout.CarryOnWithoutWrapping | include/fum/detail/hash_table.hpp:394-398 | passing a resident of at least the running word keeps the exact displacement, in 32 bits |
| Layout.Steal | include/fum/detail/hash_table.hpp:407-415 | exchanging the carried node with a smaller resident leaves a well-formed table, and the robbed node is again carried with its exact word |
| Layout.Settle | include/fum/detail/hash_table.hpp:416 | settling in an empty bucket adds exactly that node |
| Layout.HomePlacement | include/fum/detail/hash_table.hpp:498-502 | placing an absent node from its home bucket ends in a well-formed table of the old nodes and that one |
| Layout.StillAhead | include/fum/detail/hash_table.hpp:426-436 | a search cannot give up before, nor walk past, the bucket of a node with the searched tag |
| Layout.HomeSearch | include/fum/detail/hash_table.hpp:421-438 | a search from the home bucket ends at the bucket of its target if that is in the table, and reports absence otherwise, for any tags whatever |
| Layout.ShiftBack | include/fum/detail/hash_table.hpp:444-450 | pulling one displaced occupant back keeps every displacement exact around the moving hole |
| Layout.CloseHole | include/fum/detail/hash_table.hpp:451 | clearing the hole in front of an empty bucket or an undisplaced occupant restores the invariant |
| Canonical.NearestGap | include/fum/detail/hash_table.hpp:404-452 | behind every occupant there is an empty bucket with only occupants in between |
| Canonical.GapIsShared | include/fum/detail/hash_table.hpp:404-452 | two tables with the same tags have the same empty buckets |
| Canonical.NoSmaller | include/fum/detail/hash_table.hpp:404-452 | where two tables with the same tags agree up to a bucket, neither has the larger word there |
| Width.PileOverflows | include/fum/detail/hash_table.hpp:89-98 | beyond 2^24 - 2 equal tags the running word of a search wraps |
| Width.WrappedSearchMeetsEmpty | include/fum/detail/hash_table.hpp:428-429 | with 2^24 - 1 equal tags, the running word of a search agrees with every resident's and then with the word 0 of an empty bucket |
| Width.StoredIsLanded | include/fum/detail/hash_table.hpp:404-417 | as long as no word wraps, the placing loop with its 32-bit word is the placing recursion |
| Width.OneTooManyIsLost | include/fum/detail/hash_table.hpp:404-417 | with 2^24 - 1 equal tags, placing one more changes no word of the table and leaves the new node in no occupied bucket |
| Sizing.RoundUpIsTableSize | include/fum/detail/hash_table.hpp:505-509 | rounding up gives a power of two of at least 8, not below the request, and keeps table sizes |
| Sizing.RoundUpIsLeast | include/fum/detail/hash_table.hpp:505-509 | rounding up gives the least table size that is not below the value |
| Sizing.CountForElementsOvertakes | include/fum/detail/hash_table.hpp:520-527 | exactly when the bucket count for `n` elements exceeds `n` |
| Sizing.ReserveTargetIsLeast | include/fum/detail/hash_table.hpp:1071-1073 | `reserve(n)` settles on the least table size whose product with the factor exceeds both `n` and the size |
| Sizing.GrowthIsLeast | include/fum/detail/hash_table.hpp:512-518 | room for one more is made in the present table if its capacity allows, else in the next larger one |
| Sizing.WithinCapacityMeans | include/fum/detail/hash_table.hpp:483-491 | within the capacity, `size / count` is at most the factor and a bucket is empty |
| Sizing.RehashIsSafeUpToOne | include/fum/detail/hash_table.hpp:1055-1070 | for factors up to one, `rehash` allocates more buckets than there are elements |
| Sizing.RehashCanOverfill | include/fum/detail/hash_table.hpp:520-527 | at factor 2, fifteen elements are given eight buckets |
| Sizing.RehashTargetFits | include/fum/detail/hash_table.hpp:1055-1070 | a safe rehash with requests up to 2^63 settles on an allocatable table size |
| Sizing.CopyingKeepsLoad | include/fum/detail/hash_table.hpp:640-646 | from a factor of 1/8 on, a table filled by copying is within its load |
| Sizing.CopyingIsLeast | include/fum/detail/hash_table.hpp:640-646 | from a factor of 1/8 on, copying ends in the least table that reserving asks for and whose capacity holds the elements |
| Sizing.SafeRehashRestoresLoad | include/fum/detail/hash_table.hpp:1055-1070 | any rehash that leaves an empty bucket brings the table within its load, whatever the factor |
| Sizing.ReserveIsKeptUpToOne | include/fum/detail/hash_table.hpp:1071-1073 | for factors up to one, the capacity after `reserve(n)` covers `n` |
| Sizing.CountIsBounded | include/fum/detail/hash_table.hpp:520-527 | from a factor of 1/8 on, up to 2^58 elements ask for no more than 2^62 buckets |
| Sizing.GrowthIsBounded | include/fum/detail/hash_table.hpp:512-518 | a full table of up to 2^24 - 2 elements has at most 2^62 buckets if the factor is at least 2^-38 |
| Arena.TakeFree | include/fum/detail/hash_table.hpp:350-354 | popping the free list moves its head from the free to the used nodes |
| Arena.AllUsed | include/fum/detail/hash_table.hpp:348-356 | with an empty free list every node below the high-water mark is in use |
| Arena.GiveBack | include/fum/detail/hash_table.hpp:357-360 | releasing a node puts it first on a free list that stays acyclic and duplicate-free |
| Arena.ListedCount | include/fum/detail/hash_table.hpp:857-858 | the iteration vector is as long as there are live nodes |
| Maps.SameSizeInclusion | include/fum/unordered_map.hpp:169-177 | a finite map included in another of the same size equals it |
| Maps.OneMoreSwappedOut | include/fum/detail/hash_table.hpp:937-940 | the elements of a range are swapped out of the order from the first to the last |
| Maps.MergingTakes | include/fum/detail/hash_table.hpp:1243-1259 | a key that the destination lacks moves to the end of its order, is swapped out of the source's, and there is room for it |
| Maps.MergingEnds | include/fum/detail/hash_table.hpp:1235-1260 | entries and orders on either side once every source key was offered; none is lost or duplicated |
| Maps.SweepErases | include/fum/unordered_map.hpp:199-203 | erasing at the current position of a sweep leaves unjudged elements only from there on |
| Maps.BucketsPartition | include/fum/detail/hash_table.hpp:1013-1019 | bucket sizes add up to the number of elements |
| Maps.FirstEntryCounts | include/fum/detail/hash_table.hpp:902-905 | in a listed range, a key has the value of its first entry |
| Maps.NewcomerAt | include/fum/detail/hash_table.hpp:902-905 | in a listed range, new keys join the order where they first occur |
| Engine.HashTable.constructor | include/fum/detail/hash_table.hpp:670-681 | an empty table with the rounded bucket count |
| Engine.HashTable.ProbeStart | include/fum/detail/hash_table.hpp:391-400 | stops at a bucket from which placing ends in the same table as from home |
| Engine.HashTable.PlaceAndShiftUp | include/fum/detail/hash_table.hpp:404-417 | the bucket array becomes that of the placing recursion |
| Engine.HashTable.FindBucket | include/fum/detail/hash_table.hpp:421-438 | the bucket of the searching recursion, the bucket count if there are no buckets |
| Engine.HashTable.EraseBucket | include/fum/detail/hash_table.hpp:442-452 | the bucket array becomes that of the shifting recursion |
| Engine.HashTable.AcquireNode | include/fum/detail/hash_table.hpp:338-356 | the head of the free list or the node at the high-water mark moves into use; the arena grows by one chunk of raw nodes exactly when there is neither |
| Engine.HashTable.ReleaseNode | include/fum/detail/hash_table.hpp:357-360 | the node is the new head of the free list |
| Engine.HashTable.LinkIntoIteration | include/fum/detail/hash_table.hpp:372-375 | the node is last in the vector and knows its position |
| Engine.HashTable.UnlinkFromIteration | include/fum/detail/hash_table.hpp:378-384 | the vector is a bijection with the remaining live nodes |
| Engine.HashTable.AllocateBuckets | include/fum/detail/hash_table.hpp:472-481 | empty buckets and consistent size fields |
| Engine.HashTable.RehashTo | include/fum/detail/hash_table.hpp:495-503 | the new index table holds every live node; arena and iteration order are untouched |
| Engine.HashTable.PlaceFromHome | include/fum/detail/hash_table.hpp:498-502 | the table that placing from home leads to |
| Engine.HashTable.InsertKnownAbsent | include/fum/detail/hash_table.hpp:530-534 | probing ahead first leads to the same table as placing from home |
| Engine.HashTable.SizeFits | include/fum/detail/hash_table.hpp:483-491 | in every valid state there are no buckets and no elements, or fewer elements than buckets |
| Engine.HashTable.ReserveForOneMore | include/fum/detail/hash_table.hpp:512-518 | afterwards one more element fits with a bucket to spare |
| Engine.HashTable.EraseLocated | include/fum/detail/hash_table.hpp:455-461 | removes the occupant everywhere, also when its element was moved out before |
| Engine.HashTable.EmplaceImpl | include/fum/detail/hash_table.hpp:540-567 | adds the entry unless the key is present, reports which, and no other element changes node; a rejected node is freed again |
| Engine.HashTable.TryEmplaceImpl | include/fum/detail/hash_table.hpp:571-598 | adds the entry unless the key is present and reports which, constructing no element for a present key |
| Engine.HashTable.InsertOrAssignImpl | include/fum/detail/hash_table.hpp:601-610 | adds or overwrites, and reports which |
| Engine.HashTable.EraseKey | include/fum/detail/hash_table.hpp:943-949 | the map without the key, the count removed, the order after swap-on-erase |
| Engine.HashTable.EraseAt | include/fum/detail/hash_table.hpp:919-927 | removes the element and returns what then stands at its position |
| Engine.HashTable.EraseNode | include/fum/detail/hash_table.hpp:937-940 | removes the element of a listed node, found through its own key |
| Engine.HashTable.EraseRange | include/fum/detail/hash_table.hpp:931-942 | removes exactly the elements of the range, swapping each out of the order, and returns its end |
| Engine.HashTable.Advance | include/fum/detail/hash_table.hpp:174-181 | the node at the next position, or the end |
| Engine.HashTable.Find | include/fum/detail/hash_table.hpp:977-982 | the node of the key, or the end |
| Engine.HashTable.Contains | include/fum/detail/hash_table.hpp:989-991 | membership in the map |
| Engine.HashTable.Count | include/fum/detail/hash_table.hpp:974-976 | 1 for a key of the map, 0 for any other |
| Engine.HashTable.Rehash | include/fum/detail/hash_table.hpp:1055-1070 | map, order and nodes are unchanged; the bucket count is the least table size not below the request that carries the elements, 0 for an empty table |
| Engine.HashTable.Reserve | include/fum/detail/hash_table.hpp:1071-1073 | the bucket count is the least table size that carries the elements to come and those there are; the capacity covers the request whenever the factor lets it |
| Engine.HashTable.SetMaxLoadFactor | include/fum/detail/hash_table.hpp:1049-1054 | non-positive factors select the default, the capacity follows, nothing is rehashed |
| Engine.HashTable.Extract | include/fum/detail/hash_table.hpp:1182-1186 | the element leaves the map for the handle, whatever moving it out leaves behind |
| Engine.HashTable.InsertNode | include/fum/detail/hash_table.hpp:1192-1219 | the handle's element is added and the handle emptied, or the handle handed back |
| Engine.HashTable.Clear | include/fum/detail/hash_table.hpp:866-878 | no elements, no free list, a blank index table; the arena keeps its chunks |
| Engine.HashTable.Insert | include/fum/detail/hash_table.hpp:880-885 | the entry is added unless the key is present, and the bucket array grows at most for it |
| Engine.HashTable.InsertRange | include/fum/detail/hash_table.hpp:902-905 | the first entry of each new key is added, however often keys repeat, in order of first occurrence; the bucket array grows once per added element that finds no room, and stays if all find it |
| Engine.HashTable.MergeOne | include/fum/detail/hash_table.hpp:1243-1259 | one element moves over, erased at the bucket located before it was moved, and the destination grows at most for it |
| Engine.HashTable.MergeFromSelf | include/fum/detail/hash_table.hpp:1235-1260 | merging a table with itself changes nothing |
| Engine.HashTable.CopyContentsFrom | include/fum/detail/hash_table.hpp:640-646 | the same entries in the same iteration order, and the bucket count that reserving and inserting lead to |
| Engine.HashTable.CopyOf | include/fum/detail/hash_table.hpp:727-735 | a copy with the other's hash, factor, entries and order, and the sizes that reserving and inserting lead to |
| Engine.HashTable.CopyAssign | include/fum/detail/hash_table.hpp:774-801 | the entries, order, factor and hash of the other; the exact case in which the capacity is stale |
| Engine.HashTable.BucketOf | include/fum/detail/hash_table.hpp:1020-1022 | the hash scaled to the bucket count, also of an absent key; 0 without buckets |
| Engine.HashTable.BucketSize | include/fum/detail/hash_table.hpp:1013-1019 | the number of elements with that home |
| Engine.HashTable.BucketSizesAddUp | include/fum/detail/hash_table.hpp:1013-1019 | the sizes of all buckets add up to the size of the table |
| Engine.HashTable.HomeIsBucket | include/fum/detail/hash_table.hpp:323-328 | the home of a live key is its hash scaled to the bucket count |
| Engine.HashTable.WordIsExact | include/fum/detail/hash_table.hpp:89-98 | the word in a live key's bucket is its exact circular displacement from home and the low 8 bits of its hash |
| Engine.HashTable.AdvanceToMatch | include/fum/detail/hash_table.hpp:224-230 | the next position of an element with that home, none skipped |
| Engine.HashTable.BucketWalk | include/fum/detail/hash_table.hpp:1023-1032 | the local iterators of a bucket visit each element with that home exactly once and no other, as many as `bucket_size` counts |
| Engine.HashTable.WordsDependOnKeys | include/fum/detail/hash_table.hpp:404-452 | whatever happens between two states with the same keys and bucket count, the words are the same |
| Engine.SameKeysSameWords | include/fum/detail/hash_table.hpp:319-328 | equal keys under one hash give equal words bucket by bucket |
| UnorderedMap.At | include/fum/unordered_map.hpp:105-111 | the value, or out of range |
| UnorderedMap.Subscript | include/fum/unordered_map.hpp:113-115 | the node of the key, after adding a default value if it was absent |
| UnorderedMap.Store | fuzz/differential_fuzz.cpp:110-116 | storing through the subscript overwrites or adds the entry |
| UnorderedSet.Equals | include/fum/unordered_set.hpp:80-87 | true exactly for equal sets |
| UnorderedSet.EraseIf | include/fum/unordered_set.hpp:103-115 | judges each key of a set once, keeps exactly the spared, counts the erased |
| Runs.Step | fuzz/differential_fuzz.cpp:101-210 | one operation does what the oracle does, with the same outcome, and keeps nodes and, unless it resizes, the bucket array |
| Runs.TableStays | include/fum/detail/hash_table.hpp:512-518 | over any stretch of a run that stays within the capacity and asks for no rehash, the bucket array is not replaced |
| Runs.RehashIsAdmissible | include/fum/detail/hash_table.hpp:1055-1070 | up to a factor of one, a run may ask for any bucket count up to 2^63 |
| Laws.AddingMeans | fuzz/differential_fuzz.cpp:110-139 | storing and assigning overwrite, emplacing does not; a new key joins the end of the order; the flag says whether the key was absent |
| Laws.RemovingMeans | include/fum/detail/hash_table.hpp:919-949 | erasing or extracting removes the key, whose place in the order the last key takes; the count says whether it was there |
| Laws.RemovingRangeMeans | include/fum/detail/hash_table.hpp:931-942 | erasing a range removes exactly the keys at its positions, swapping them out from the first to the last |
| Laws.ReinsertingMeans | include/fum/detail/hash_table.hpp:1192-1219 | the handle's element goes in unless its key is present, and the handle is then empty |
| Laws.PolicyMeans | include/fum/detail/hash_table.hpp:1049-1073 | rehashing, reserving and setting the factor change the sizes and nothing else |
| Laws.OrderListsKeys | include/fum/detail/hash_table.hpp:842-852 | after any run, iterators visit each key of the map exactly once |
| Laws.EverydayIsAdmissible | fuzz/differential_fuzz.cpp:101-210 | below the limit on sizes, a run may do anything but change the policy |
| Runs.ReserveIsAdmissible | include/fum/detail/hash_table.hpp:1071-1073 | up to a factor of one, a run may reserve room for up to 2^24 - 2 elements |
| Runs.AssignStaleCapacity | include/fum/detail/hash_table.hpp:795-799 | eight buckets assigned an empty table of factor 0.25 keep the capacity 6 of the default factor |
| Runs.OverfillAfterAssignment | include/fum/detail/hash_table.hpp:795-799 | eight buckets with that stale capacity take six elements without growing, at a factor of 0.25 |

## Left out

- Sizes above 2^24 - 2: growing operations require room below that, because words may wrap beyond it.
- Maximum load factors below 2^-38 in operations that insert many elements, and bucket counts above 2^63: the 64-bit size arithmetic is not modelled beyond them.
- IEEE rounding of the load factor and of the divisions: factors are real numbers.
- Exceptions and allocation failure: hashing, construction and allocation succeed, so the clean-up branches of the insertions do not appear.
- Allocators and their propagation, raw storage, alignment, chunk addresses.
- Moving and swapping whole tables: they exchange fields only.
- Initializer lists, hints, const and non-const twins, `equal_range`, `extract(iterator)`, node-handle accessors: variants of members that are modelled.
- Run: covers maximum load factors from 2^-38 on, and leaves out `merge`, which has a contract of its own, and swapping with another table.
- UnorderedSet.EraseIf: runs the map's sweep with a predicate on keys, because the two loops are the same.
- Removes: says nothing about the relative order of the remaining elements beyond the swap, because swap-on-erase does not keep it.
- Hash quality and running time.
