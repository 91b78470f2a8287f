/**
 The open-addressing engine shared by the map and the set: a Robin Hood index
 table over a stable node arena, with a dense iteration vector.
 */
module Engine {
  import opened Bits
  import opened Layout
  import opened Sizing
  import opened Arena
  import opened Maps
  import opened Canonical

  function TagOf(hash: Hash64, shift: nat): Tag {
    Tag(ShiftRight(hash, shift), hash % 256)
  }

  ghost function TagsOf<K>(keyOf: map<nat, K>, hash: K -> Hash64, shift: nat): map<nat, Tag> {
    map x | x in keyOf :: TagOf(hash(keyOf[x]), shift)
  }

  /** Giving a new node its tag leaves the tags of the others alone. */
  lemma TagsExtend<K>(b: seq<Bucket>, keyOf: map<nat, K>, hash: K -> Hash64, shift: nat,
                      slots: map<nat, nat>, gap: nat, node: nat, key: K)
    requires Good(b, TagsOf(keyOf, hash, shift), slots, gap) && node !in keyOf && slots.Keys == keyOf.Keys
    ensures Good(b, TagsOf(keyOf[node := key], hash, shift), slots, gap)
    ensures node in TagsOf(keyOf[node := key], hash, shift)
    ensures TagsOf(keyOf[node := key], hash, shift)[node] == TagOf(hash(key), shift)
  {
    Retag(b, TagsOf(keyOf, hash, shift), slots, gap, TagsOf(keyOf[node := key], hash, shift));
  }

  lemma TagsShrink<K>(b: seq<Bucket>, keyOf: map<nat, K>, hash: K -> Hash64, shift: nat,
                      slots: map<nat, nat>, gap: nat, node: nat)
    requires Good(b, TagsOf(keyOf, hash, shift), slots, gap) && slots.Keys == keyOf.Keys - {node}
    ensures Good(b, TagsOf(keyOf - {node}, hash, shift), slots, gap)
  {
    Retag(b, TagsOf(keyOf, hash, shift), slots, gap, TagsOf(keyOf - {node}, hash, shift));
  }

  /** `next_bucket`: the successor under the mask `count - 1`. */
  function NextBucket(index: nat, count: nat): (next: nat)
    requires PowerOfTwo(count) && index < count
    ensures next == Next(index, count)
  {
    MaskedSuccessor(index, count);
    And(index + 1, count - 1)
  }

  lemma TagFits(hash: Hash64, count: nat)
    requires TableSize(count) && CountrZero(count) <= 63
    ensures TagOf(hash, 64 - CountrZero(count)).home < count
    ensures TagOf(hash, 64 - CountrZero(count)).fingerprint < 256
  {
    ShiftedHashBound(hash, count);
  }

  /** Tables over the same keys, with the same hash and bucket count, hold the same words. */
  lemma SameKeysSameWords<K>(hash: K -> Hash64, shift: nat, left: Table, right: Table,
                             leftKeys: map<nat, K>, leftNodes: map<K, nat>,
                             rightKeys: map<nat, K>, rightNodes: map<K, nat>)
    requires left.Valid() && left.tags == TagsOf(leftKeys, hash, shift)
    requires right.Valid() && right.tags == TagsOf(rightKeys, hash, shift)
    requires left.slots.Keys == leftKeys.Keys && Inverse(leftKeys, leftNodes)
    requires right.slots.Keys == rightKeys.Keys && Inverse(rightKeys, rightNodes)
    requires |left.b| == |right.b| && leftNodes.Keys == rightNodes.Keys
    ensures forall p :: 0 <= p < |left.b| ==> left.b[p].word == right.b[p].word
  {
    hide Good;
    var there := map x | x in leftKeys :: rightNodes[leftKeys[x]];
    var back := map x | x in rightKeys :: leftNodes[rightKeys[x]];
    WordsAreCanonical(left, right, there, back);
  }

  /** A node handle: empty, or the owner of an element outside of any table. */
  datatype Handle<K, V> = NoNode | Holding(key: K, value: V)

  /** The table-size fields agree with each other. */
  ghost predicate Sized(length: nat, count: nat, shift: nat, capacity: nat, factor: real) {
    && factor > 0.0 && length == count
    && (count == 0 ==> capacity == 0 && shift == 64)
    && (count != 0 ==>
          && TableSize(count) && CountrZero(count) <= 63
          && shift == 64 - CountrZero(count)
          && capacity < count)
  }

  class HashTable<K(==), V> {
    /** The mixed 64-bit hash of a key. */
    var hash: K -> Hash64
    /** What moving an element out of a node leaves behind in it. */
    const residue: (K, V) -> (K, V)

    var buckets: array<Bucket>
    var bucketCount: nat
    var maxLoadCapacity: nat
    var bucketShift: nat
    var arena: seq<Node<K, V>>
    var highWater: nat
    var freeHead: nat
    var iteration: seq<nat>
    var maxLoadFactor: real

    /** The key of each live node, and the node of each key. */
    ghost var keyOf: map<nat, K>
    ghost var nodeOf: map<K, nat>
    /** The bucket of each node in the index table, and an empty bucket. */
    ghost var slots: map<nat, nat>
    ghost var gap: nat
    /** The free list, in order. */
    ghost var free: seq<nat>

    /** An empty table, with buckets for the requested count if there is one. */
    constructor (hash: K -> Hash64, residue: (K, V) -> (K, V), requested: nat)
      requires requested <= 0x8000_0000_0000_0000
      ensures this.hash == hash && this.residue == residue
      ensures Valid() && fresh(buckets) && Contents() == map[] && iteration == []
      ensures bucketCount == (if requested > 0 then RoundUp(requested) else 0) && Capped()
      ensures maxLoadFactor == 0.8
    {
      this.hash, this.residue := hash, residue;
      buckets := new Bucket[0];
      bucketCount, maxLoadCapacity, bucketShift := 0, 0, 64;
      arena, highWater, freeHead, iteration := [], 0, NULL_INDEX, [];
      maxLoadFactor := DEFAULT_MAX_LOAD_FACTOR;
      keyOf, nodeOf, slots, gap, free := map[], map[], map[], 0, [];
      new;
      hide Listed, Stored, Inverse, Partitioned, Constructed, Good, Sized, TableSize, LoadCapacity, Denoted;
      FreshIsValid();
      if requested > 0 {
        RoundUpIsTableSize(requested);
        RoundUpFits(requested);
        RehashTo(RoundUp(requested));
      }
    }

    /** A table whose fields were just initialised. */
    lemma FreshIsValid()
      requires buckets.Length == bucketCount == maxLoadCapacity == highWater == 0 && bucketShift == 64
      requires arena == [] && iteration == [] && freeHead == NULL_INDEX && maxLoadFactor > 0.0
      requires keyOf == map[] && nodeOf == map[] && slots == map[] && free == []
      ensures Valid() && Contents() == map[]
    {
    }

    // ---- invariants --------------------------------------------------------

    ghost predicate Geometry()
      reads `buckets, `bucketCount, `bucketShift, `maxLoadCapacity, `maxLoadFactor
    {
      Sized(buckets.Length, bucketCount, bucketShift, maxLoadCapacity, maxLoadFactor)
    }

    /** The capacity is the one that the maximum load factor allows. */
    ghost predicate Capped()
      reads `bucketCount, `maxLoadCapacity, `maxLoadFactor
    {
      maxLoadFactor > 0.0 &&
      maxLoadCapacity == CapacityFor(bucketCount, maxLoadFactor)
    }

    /** A capacity is recomputed when the bucket count changes, and only then. */
    twostate predicate CapacityFollows()
      reads `bucketCount, `maxLoadCapacity, `maxLoadFactor
    {
      if bucketCount == old(bucketCount) then maxLoadCapacity == old(maxLoadCapacity) else Capped()
    }

    ghost function SizeFields(): Sizes
      reads `bucketCount, `maxLoadCapacity
    {
      Sizes(bucketCount, maxLoadCapacity)
    }

    /** Doubling the bucket array never leaves the range of the size arithmetic. */
    ghost predicate Growable()
      reads `bucketCount, `maxLoadCapacity, `maxLoadFactor
    {
      FactorIsSensible(maxLoadFactor) && (Capped() || bucketCount <= 0x4000_0000_0000_0000)
    }

    /** The tags of these nodes under the current shift. */
    ghost function Tags(keys: map<nat, K>): map<nat, Tag>
      reads `hash, `bucketShift
    {
      TagsOf(keys, hash, bucketShift)
    }

    /** The index table holds exactly the nodes of `keys`, at their exact displacements. */
    ghost predicate Indexes(keys: map<nat, K>)
      reads `hash, `buckets, `bucketCount, `bucketShift, `slots, `gap, buckets
    {
      && slots.Keys == keys.Keys
      && (bucketCount != 0 ==> Good(buckets[..], Tags(keys), slots, gap))
    }

    /** Index table, iteration vector and stored elements agree on the live nodes. */
    ghost predicate Linked(moved: set<nat>)
      reads this, buckets
    {
      && Geometry()
      && Indexes(keyOf)
      && (bucketCount == 0 ==> iteration == [])
      && Listed(iteration, arena, keyOf.Keys)
      && Stored(arena, keyOf, moved)
      && Inverse(keyOf, nodeOf)
      && |iteration| <= MAX_SIZE
    }

    /** The arena splits into live nodes, nodes in transit and free nodes. */
    ghost predicate Stocked(transit: set<nat>, built: set<nat>)
      reads this
    {
      && Partitioned(arena, highWater, freeHead, free, keyOf.Keys + transit)
      && Constructed(arena, keyOf.Keys + built)
      && transit !! keyOf.Keys
      && highWater <= MAX_SIZE + 1
    }

    ghost predicate Valid()
      reads this, buckets
    {
      Linked({}) && Stocked({}, {})
    }

    /** The finite map that the table denotes. */
    ghost function Contents(): map<K, V>
      reads `nodeOf, `arena
    {
      Denoted(nodeOf, arena)
    }

    method SetBucket(index: nat, bucket: Bucket)
      requires index < buckets.Length
      modifies buckets
      ensures buckets[..] == old(buckets[..])[index := bucket]
    {
      buckets[index] := bucket;
    }

    // ---- Robin Hood core ---------------------------------------------------

    /** The array `buckets` can be walked by masking. */
    ghost predicate Masked()
      reads `buckets, `bucketCount
    {
      buckets.Length == bucketCount && PowerOfTwo(bucketCount)
    }

    /** Walks from the home bucket of a hash to the first bucket it may claim. */
    method ProbeStart(h: Hash64, ghost gap: nat, ghost node: nat) returns (word: nat, index: nat)
      requires Masked() && ShiftRight(h, bucketShift) < bucketCount
      requires var c := Carry(buckets[..], 256 + h % 256, ShiftRight(h, bucketShift), node);
        c.CanLand(gap) && c.NeverWraps(gap)
      ensures var c := Carry(buckets[..], word, index, node);
        c.CanLand(gap) && c.NeverWraps(gap)
        && c.Landed(gap) == Carry(buckets[..], 256 + h % 256, ShiftRight(h, bucketShift), node).Landed(gap)
      ensures word >= buckets[index].word
    {
      word := 256 + h % 256;
      index := ShiftRight(h, bucketShift);
      ghost var c := Carry(buckets[..], word, index, node);
      ghost var start := c;
      while word < buckets[index].word
        invariant c == Carry(buckets[..], word, index, node) && index < bucketCount
        invariant c.CanLand(gap) && c.NeverWraps(gap) && c.Landed(gap) == start.Landed(gap)
        decreases bucketCount - Rel(index, gap, bucketCount)
      {
        assert c.b[index] == buckets[index];
        c := c.Step();
        word := Wrap32(word + 256);
        index := NextBucket(index, bucketCount);
      }
    }

    /** Inserts a carried node, displacing residents with smaller words along the way. */
    method PlaceAndShiftUp(word: nat, index: nat, node: nat, ghost gap: nat)
      requires Masked()
      requires var c := Carry(buckets[..], word, index, node); c.CanLand(gap) && c.NeverWraps(gap)
      modifies buckets
      ensures buckets[..] == Carry(old(buckets[..]), word, index, node).Landed(gap)
    {
      var w: nat, i: nat, carried: nat := word, index, node;
      ghost var c := Carry(buckets[..], w, i, carried);
      ghost var start := c;
      while buckets[i].word != 0
        invariant c == Carry(buckets[..], w, i, carried) && i < bucketCount
        invariant c.CanLand(gap) && c.NeverWraps(gap) && c.Landed(gap) == start.Landed(gap)
        decreases bucketCount - Rel(i, gap, bucketCount)
      {
        var resident := buckets[i];
        assert c.b[i] == resident;
        c := c.Step();
        if w > resident.word {
          SetBucket(i, Bucket(w, carried));
          w, carried := resident.word, resident.node;
        }
        w := Wrap32(w + 256);
        i := NextBucket(i, bucketCount);
      }
      SetBucket(i, Bucket(w, carried));
    }

    /** The key comparison singles out `target` among the residents. */
    ghost predicate Distinguishes(key: K, target: int)
      reads this, buckets
    {
      forall p :: 0 <= p < buckets.Length && buckets[p].word != 0 ==>
        && buckets[p].node < |arena| && arena[buckets[p].node].storage.Live?
        && (arena[buckets[p].node].storage.key == key <==> buckets[p].node == target)
    }

    /** Probes for a key, stopping as soon as the running word exceeds the resident's. */
    method FindBucket(key: K, h: Hash64, ghost gap: nat, ghost target: int) returns (slot: nat)
      requires bucketCount != 0 ==> Masked() && ShiftRight(h, bucketShift) < bucketCount
      requires bucketCount != 0 ==> var s := Search(buckets[..], 256 + h % 256, ShiftRight(h, bucketShift), target);
        s.CanEnd(gap) && s.NeverWraps(gap) && Distinguishes(key, target)
      ensures slot == if bucketCount == 0 then 0
                      else Search(buckets[..], 256 + h % 256, ShiftRight(h, bucketShift), target).Found(gap)
    {
      if bucketCount == 0 {
        return bucketCount;
      }
      var word: nat := 256 + h % 256;
      slot := ShiftRight(h, bucketShift);
      ghost var s := Search(buckets[..], word, slot, target);
      ghost var start := s;
      while true
        invariant s == Search(buckets[..], word, slot, target) && slot < bucketCount
        invariant s.CanEnd(gap) && s.NeverWraps(gap) && s.Found(gap) == start.Found(gap)
        decreases bucketCount - Rel(slot, gap, bucketCount)
      {
        var bucket := buckets[slot];
        assert s.b[slot] == bucket;
        if word == bucket.word {
          if arena[bucket.node].storage.key == key {
            return;
          }
        } else if word > bucket.word {
          return bucketCount;
        }
        s := s.Step();
        word := Wrap32(word + 256);
        slot := NextBucket(slot, bucketCount);
      }
    }

    /** Vacates a bucket and pulls the displaced occupants behind it one bucket back. */
    method EraseBucket(slot: nat, ghost gap: nat)
      requires Masked() && slot < bucketCount && gap < bucketCount && slot != gap && buckets[gap].word == 0
      modifies buckets
      ensures buckets[..] == Closed(old(buckets[..]), slot, gap)
    {
      var hole: nat, next: nat := slot, NextBucket(slot, bucketCount);
      ghost var b := buckets[..];
      while buckets[next].word >= 512
        invariant b == buckets[..] && next == Next(hole, bucketCount)
        invariant hole < bucketCount && hole != gap && b[gap].word == 0
        invariant Closed(b, hole, gap) == Closed(old(buckets[..]), slot, gap)
        decreases bucketCount - Rel(hole, gap, bucketCount)
      {
        assert b[next] == buckets[next];
        b := Pulled(b, hole);
        SetBucket(hole, Bucket(buckets[next].word - 256, buckets[next].node));
        hole := next;
        next := NextBucket(next, bucketCount);
      }
      assert b[next] == buckets[next];
      SetBucket(hole, EMPTY);
    }

    // ---- node lifetime -----------------------------------------------------

    method EnsureArenaSlot()
      modifies `arena
      ensures old(arena) <= arena && |arena| % CHUNK_SIZE == |old(arena)| % CHUNK_SIZE
      ensures forall x :: |old(arena)| <= x < |arena| ==> arena[x].storage.Raw?
      ensures freeHead != NULL_INDEX || highWater < |old(arena)| ==> arena == old(arena)
      ensures !(freeHead != NULL_INDEX || highWater < |old(arena)|) ==> |arena| == |old(arena)| + 1024
      ensures freeHead == NULL_INDEX && highWater <= |old(arena)| && |old(arena)| % CHUNK_SIZE == 0 ==>
        highWater < |arena|
    {
      if freeHead != NULL_INDEX {
        return;
      }
      if highWater < |arena| {
        return;
      }
      var garbage: nat := *;
      arena := arena + seq(CHUNK_SIZE, _ => Node(Raw, garbage));
    }

    /** Reserves a node slot; its element is not constructed yet. */
    method AcquireNode(ghost used: set<nat>) returns (node: nat)
      requires Partitioned(arena, highWater, freeHead, free, used) && |used| + 1 < NULL_INDEX
      modifies `arena, `highWater, `freeHead, `free
      ensures old(arena) <= arena && forall x :: |old(arena)| <= x < |arena| ==> arena[x].storage.Raw?
      ensures node == if old(freeHead) != NULL_INDEX then old(freeHead) else old(highWater)
      ensures |arena| == if old(freeHead) != NULL_INDEX || old(highWater) < |old(arena)| then |old(arena)|
                         else |old(arena)| + 1024
      ensures node !in used && node < |arena|
      ensures Partitioned(arena, highWater, freeHead, free, used + {node})
      ensures highWater == old(highWater) || highWater == |used| + 1
    {
      EnsureArenaSlot();
      OtherLinksAreFree(old(arena), arena, highWater, freeHead, free, used);
      hide Split, Chain;
      if freeHead != NULL_INDEX {
        node := freeHead;
        TakeFree(arena, highWater, freeHead, free, used);
        freeHead := arena[node].aux;
        free := free[1..];
      } else {
        node := highWater;
        AllUsed(arena, highWater, freeHead, free, used);
        TakeFresh(arena, highWater, freeHead, free, used);
        highWater := highWater + 1;
      }
    }

    /** A node in transit that holds no element yet. */
    method TakeNode() returns (node: nat)
      requires Valid()
      modifies `arena, `highWater, `freeHead, `free
      ensures Linked({}) && Stocked({node}, {})
      ensures node < |arena| && node !in keyOf && arena[node].storage.Raw?
      ensures Kept(old(arena), arena, keyOf.Keys)
    {
      hide Partitioned, Listed, Stored, Constructed, Kept, Geometry, Indexes, Inverse;
      ghost var used := keyOf.Keys;
      WithNothing(used);
      ListedCount(iteration, arena, used);
      node := AcquireNode(used);
      SpareIsRaw(old(arena), arena, used, node);
      NodeTaken(old(arena), arena, iteration, keyOf);
    }

    /** A node in transit that holds the given element. */
    method MakeNode(key: K, value: V) returns (node: nat)
      requires Valid()
      modifies `arena, `highWater, `freeHead, `free
      ensures Linked({}) && Stocked({node}, {node})
      ensures node < |arena| && arena[node].storage == Live(key, value)
      ensures Kept(old(arena), arena, keyOf.Keys)
    {
      hide Partitioned, Listed, Stored, Constructed, Kept, Geometry, Indexes, Inverse;
      node := TakeNode();
      WithNothing(keyOf.Keys);
      ghost var taken := arena;
      NodeMade(taken, highWater, freeHead, free, iteration, keyOf, node, key, value);
      KeptThrough(old(arena), taken, taken[node := taken[node].(storage := Live(key, value))], keyOf.Keys);
      ConstructValue(node, key, value);
    }

    /** Puts a node whose element is gone on the free list. */
    method ReleaseNode(node: nat, ghost used: set<nat>)
      requires Partitioned(arena, highWater, freeHead, free, used) && node in used
      modifies `arena, `freeHead, `free
      ensures Partitioned(arena, highWater, freeHead, free, used - {node})
      ensures node < |old(arena)| && arena == old(arena)[node := old(arena)[node].(aux := old(freeHead))]
    {
      GiveBack(arena, highWater, freeHead, free, used, node);
      arena := arena[node := arena[node].(aux := freeHead)];
      freeHead := node;
      free := [node] + free;
    }

    method ConstructValue(node: nat, key: K, value: V)
      requires node < |arena| && arena[node].storage.Raw?
      modifies `arena
      ensures arena == old(arena)[node := old(arena)[node].(storage := Live(key, value))]
    {
      arena := arena[node := arena[node].(storage := Live(key, value))];
    }

    method DestroyValue(node: nat)
      requires node < |arena| && arena[node].storage.Live?
      modifies `arena
      ensures arena == old(arena)[node := old(arena)[node].(storage := Raw)]
    {
      arena := arena[node := arena[node].(storage := Raw)];
    }

    method LinkIntoIteration(node: nat)
      requires node < |arena|
      modifies `arena, `iteration
      ensures arena == old(arena)[node := old(arena)[node].(aux := |old(iteration)|)]
      ensures iteration == old(iteration) + [node]
    {
      arena := arena[node := arena[node].(aux := |iteration|)];
      iteration := iteration + [node];
    }

    /** Removes a node from the iteration vector by moving the last entry into its place. */
    method UnlinkFromIteration(node: nat, ghost live: set<nat>)
      requires Listed(iteration, arena, live) && node in live
      modifies `arena, `iteration
      ensures |old(iteration)| > 0 && node < |old(arena)| && old(arena)[node].aux < |old(iteration)|
      ensures iteration == SwapErased(old(iteration), old(arena)[node].aux)
      ensures old(iteration)[|old(iteration)| - 1] < |old(arena)|
      ensures arena == Unlinked(old(iteration), old(arena), node)
      ensures Listed(iteration, arena, live - {node})
    {
      Unlink(iteration, arena, live, node);
      var position := arena[node].aux;
      var last := iteration[|iteration| - 1];
      iteration := iteration[position := last];
      arena := arena[last := arena[last].(aux := position)];
      iteration := iteration[..|iteration| - 1];
    }

    // ---- searching ---------------------------------------------------------

    ghost function Target(key: K): int
      reads `nodeOf
    {
      if key in nodeOf then nodeOf[key] else -1
    }

    lemma SearchIsReady(key: K)
      requires Linked({}) && bucketCount != 0
      ensures Masked() && buckets.Length == bucketCount && ShiftRight(hash(key), bucketShift) < bucketCount
      ensures var s := Search(buckets[..], 256 + hash(key) % 256, ShiftRight(hash(key), bucketShift), Target(key));
        && s.CanEnd(gap) && s.NeverWraps(gap)
        && s.Found(gap) == (if key in nodeOf then slots[nodeOf[key]] else bucketCount)
        && (key in nodeOf ==> HeldAt(buckets[..], slots, nodeOf[key]))
      ensures Distinguishes(key, Target(key))
    {
      hide Good, Distinguishes, Stored, LoadCapacity, HeldAt;
      TagFits(hash(key), bucketCount);
      ListedCount(iteration, arena, keyOf.Keys);
      var tag := TagOf(hash(key), bucketShift);
      if key in nodeOf {
        assert keyOf[nodeOf[key]] == key;
      }
      HomeSearch(buckets[..], Tags(keyOf), slots, gap, tag, Target(key));
      TellsApart(key);
    }

    lemma TellsApart(key: K)
      requires Linked({}) && bucketCount != 0
      ensures Distinguishes(key, Target(key))
    {
      hide LoadCapacity;
      forall p | 0 <= p < buckets.Length && buckets[p].word != 0
        ensures buckets[p].node in keyOf && keyOf[buckets[p].node] in nodeOf
      {
        ResidentIsCarried(buckets[..], Tags(keyOf), slots, gap, p);
      }
    }

    lemma NothingIsIndexed(key: K)
      requires Linked({}) && bucketCount == 0
      ensures buckets.Length == 0 && key !in nodeOf
    {
    }

    /** `find_bucket(key, mixed_hash(key))`: the bucket of the key, or the bucket count. */
    method Locate(key: K) returns (slot: nat)
      requires Linked({})
      ensures slot == bucketCount <==> key !in nodeOf
      ensures key in nodeOf ==>
        && slot < buckets.Length && slot == slots[nodeOf[key]]
        && buckets[slot].word != 0 && buckets[slot].node == nodeOf[key]
    {
      hide Listed, Stored, Geometry, Indexes, Inverse, Distinguishes, Masked;
      if bucketCount != 0 {
        SearchIsReady(key);
      } else {
        NothingIsIndexed(key);
      }
      slot := FindBucket(key, hash(key), gap, Target(key));
    }

    // ---- rehashing ---------------------------------------------------------

    /** Replaces the index table by one of empty buckets. */
    method AllocateBuckets(newCount: nat)
      requires TableSize(newCount) && CountrZero(newCount) <= 63 && maxLoadFactor > 0.0
      modifies `buckets, `bucketCount, `bucketShift, `maxLoadCapacity
      ensures Geometry() && Capped() && bucketCount == newCount == buckets.Length > 0 && fresh(buckets)
      ensures forall p :: 0 <= p < buckets.Length ==> buckets[p].word == 0
    {
      buckets := new Bucket[newCount](_ => Bucket(0, 0));
      bucketCount := newCount;
      bucketShift := 64 - CountrZero(newCount);
      maxLoadCapacity := LoadCapacity(newCount, maxLoadFactor);
    }

    /** Rebuilds the index table from the iteration vector; nodes keep their identities. */
    method RehashTo(newCount: nat)
      requires TableSize(newCount) && CountrZero(newCount) <= 63 && maxLoadFactor > 0.0
      requires |iteration| < newCount && |iteration| <= MAX_SIZE
      requires Listed(iteration, arena, keyOf.Keys) && Stored(arena, keyOf, {})
      modifies `buckets, `bucketCount, `bucketShift, `maxLoadCapacity, `slots, `gap
      ensures Geometry() && Capped() && bucketCount == newCount && fresh(buckets)
      ensures Indexes(keyOf)
    {
      hide Listed, Stored, Sized, Covers, Tags, TagOf, Good, TableSize, Masked, Placeable, Joined;
      AllocateBuckets(newCount);
      slots, gap := map[], 0;
      ghost var tags := Tags(keyOf);
      BlankIsGood(buckets[..], tags);
      LeadingEnds(iteration, arena, keyOf.Keys);
      NothingCovered(iteration);
      var i := 0;
      while i < |iteration|
        invariant 0 <= i <= |iteration| && bucketCount == newCount && Capped()
        invariant fresh(buckets) && Geometry() && Tags(keyOf) == tags
        invariant Good(buckets[..], tags, slots, gap)
        invariant Covers(slots, iteration, i)
      {
        ghost var before := slots;
        var node := iteration[i];
        NextIsPlaceable(i);
        PlaceFromHome(node, hash(arena[node].storage.key), tags);
        CoversNext(before, slots, iteration, arena, keyOf.Keys, i);
        i := i + 1;
      }
      CoveredKeys(slots, iteration, i);
    }

    lemma NextIsPlaceable(i: nat)
      requires Geometry() && bucketCount != 0 && Good(buckets[..], Tags(keyOf), slots, gap)
      requires Listed(iteration, arena, keyOf.Keys) && Stored(arena, keyOf, {})
      requires i < |iteration| < bucketCount && |iteration| <= MAX_SIZE && Covers(slots, iteration, i)
      ensures Masked() && iteration[i] < |arena| && arena[iteration[i]].storage.Live?
      ensures Placeable(buckets[..], Tags(keyOf), slots, gap, iteration[i],
                        TagOf(hash(arena[iteration[i]].storage.key), bucketShift))
    {
      LeadingGrows(iteration, arena, keyOf.Keys, i);
      TagFits(hash(keyOf[iteration[i]]), bucketCount);
    }

    /** Offers an absent node to its home bucket. */
    method PlaceFromHome(node: nat, h: Hash64, ghost tags: map<nat, Tag>)
      requires Masked() && Placeable(buckets[..], tags, slots, gap, node, TagOf(h, bucketShift))
      modifies buckets, `slots, `gap
      ensures Good(buckets[..], tags, slots, gap) && Joined(old(slots), slots, node)
      ensures HomeCarry(old(buckets[..]), node, TagOf(h, bucketShift)).CanLand(old(gap))
      ensures buckets[..] == HomeCarry(old(buckets[..]), node, TagOf(h, bucketShift)).Landed(old(gap))
    {
      hide Good, Joined, Placeable;
      ghost var slots', gap' := HomePlacement(buckets[..], tags, slots, gap, node, TagOf(h, bucketShift));
      PlaceAndShiftUp(256 + h % 256, ShiftRight(h, bucketShift), node, gap);
      slots, gap := slots', gap';
    }

    /** `insert_known_absent`: probes ahead first, and lands in the same place. */
    method InsertKnownAbsent(node: nat, h: Hash64, ghost tags: map<nat, Tag>)
      requires Masked() && Placeable(buckets[..], tags, slots, gap, node, TagOf(h, bucketShift))
      modifies buckets, `slots, `gap
      ensures Good(buckets[..], tags, slots, gap) && Joined(old(slots), slots, node)
      ensures HomeCarry(old(buckets[..]), node, TagOf(h, bucketShift)).CanLand(old(gap))
      ensures buckets[..] == HomeCarry(old(buckets[..]), node, TagOf(h, bucketShift)).Landed(old(gap))
    {
      hide Good, Joined, Placeable;
      ghost var slots', gap' := HomePlacement(buckets[..], tags, slots, gap, node, TagOf(h, bucketShift));
      HomeIsBelow(node, h, tags);
      var word, index := ProbeStart(h, gap, node);
      PlaceAndShiftUp(word, index, node, gap);
      slots, gap := slots', gap';
    }

    lemma HomeIsBelow(node: nat, h: Hash64, tags: map<nat, Tag>)
      requires buckets.Length == bucketCount
      requires Placeable(buckets[..], tags, slots, gap, node, TagOf(h, bucketShift))
      ensures ShiftRight(h, bucketShift) < bucketCount
    {
    }

    /** The elements fit with a bucket to spare; without buckets there are none. */
    lemma SizeFits(moved: set<nat>)
      requires Linked(moved)
      ensures |iteration| == |keyOf| == |slots| == |nodeOf|
      ensures if bucketCount == 0 then |iteration| == 0 else |iteration| < bucketCount
    {
      hide Good, Stored, LoadCapacity, TableSize, Inverse;
      ListedCount(iteration, arena, keyOf.Keys);
      InverseCount(keyOf, nodeOf);
      assert |slots| == |slots.Keys| == |keyOf.Keys| == |keyOf|;
      if bucketCount != 0 {
        NodesFit(buckets[..], Tags(keyOf), slots, gap);
      }
    }

    /** If the bucket array has to double, its size stays within 64-bit range. */
    ghost predicate CanGrow()
      reads `bucketCount, `maxLoadCapacity, `iteration
    {
      bucketCount != 0 && |iteration| + 1 > maxLoadCapacity ==> bucketCount <= 0x4000_0000_0000_0000
    }

    /** With a factor of at least 2^-38 that is so for every load. */
    lemma AlwaysCanGrow()
      requires Valid() && Growable() && |iteration| < MAX_SIZE
      ensures CanGrow()
    {
      hide Listed, Stored, Inverse, Partitioned, Constructed, Good, LoadCapacity, TableSize;
      if bucketCount != 0 && |iteration| + 1 > maxLoadCapacity && Capped() {
        GrowthIsBounded(bucketCount, |iteration|, maxLoadFactor);
      }
    }

    lemma GrowthIsSized()
      requires Linked({}) && CanGrow()
      ensures TableSize(INITIAL_BUCKET_COUNT) && CountrZero(INITIAL_BUCKET_COUNT) <= 63 && maxLoadFactor > 0.0
      ensures bucketCount != 0 ==> maxLoadCapacity < bucketCount
      ensures bucketCount != 0 && |iteration| + 1 > maxLoadCapacity ==>
        TableSize(2 * bucketCount) && CountrZero(2 * bucketCount) <= 63
      ensures if bucketCount == 0 then |iteration| == 0 else |iteration| + 1 < 2 * bucketCount
    {
      hide Listed, Stored, Indexes, Inverse, LoadCapacity;
      SizeFits({});
      InitialCount();
      if bucketCount != 0 {
        TableSizeDoubles(bucketCount);
        if |iteration| + 1 > maxLoadCapacity {
          DoubledCountFits(bucketCount);
        }
      }
    }

    /** Makes room for one more element, doubling the index table when its capacity is reached. */
    method ReserveForOneMore()
      requires Linked({}) && CanGrow()
      modifies `buckets, `bucketCount, `bucketShift, `maxLoadCapacity, `slots, `gap
      ensures Linked({}) && |iteration| + 1 < bucketCount
      ensures bucketCount == GrownCount(old(bucketCount), old(maxLoadCapacity), |iteration|)
      ensures if bucketCount == old(bucketCount) then buckets == old(buckets) else fresh(buckets)
      ensures CapacityFollows()
    {
      hide Listed, Stored, Inverse, LoadCapacity, TableSize, Good;
      GrowthIsSized();
      if bucketCount == 0 {
        RehashTo(INITIAL_BUCKET_COUNT);
      } else if |iteration| + 1 > maxLoadCapacity {
        RehashTo(bucketCount * 2);
      }
    }

    // ---- attaching and detaching nodes -------------------------------------

    /** Adds a node that is not in the index table yet. */
    method IndexNewcomer(node: nat, key: K, ghost keys: map<nat, K>)
      requires Geometry() && Indexes(keys) && node !in keys && |keys| <= MAX_SIZE && |keys| + 1 < bucketCount
      modifies buckets, `slots, `gap
      ensures Indexes(keys[node := key])
    {
      hide Sized, TagsOf, TagOf, Placeable, Masked, Joined, Good;
      NewcomerIsPlaceable(node, key, keys);
      KeysExtend(keys, node, key);
      ghost var before := slots;
      InsertKnownAbsent(node, hash(key), Tags(keys[node := key]));
      JoinedKeys(before, slots, node);
    }

    lemma NewcomerIsPlaceable(node: nat, key: K, keys: map<nat, K>)
      requires Geometry() && Indexes(keys) && node !in keys && |keys| <= MAX_SIZE && |keys| + 1 < bucketCount
      ensures Masked()
      ensures Placeable(buckets[..], Tags(keys[node := key]), slots, gap, node, TagOf(hash(key), bucketShift))
    {
      hide Good, TagsOf, LoadCapacity;
      assert |slots| == |slots.Keys| == |keys.Keys| == |keys|;
      TagFits(hash(key), bucketCount);
      TagsExtend(buckets[..], keys, hash, bucketShift, slots, gap, node, key);
    }

    /** Links a node in transit, whose key is absent, and indexes it. */
    method LinkAndIndex(node: nat, ghost key: K, ghost value: V)
      requires Linked({}) && Stocked({node}, {node}) && |iteration| < MAX_SIZE && |iteration| + 1 < bucketCount
      requires node < |arena| && arena[node].storage == Live(key, value) && key !in nodeOf
      modifies `arena, `iteration, `keyOf, `nodeOf, `slots, `gap, buckets
      ensures Valid()
      ensures keyOf == old(keyOf)[node := key] && nodeOf == old(nodeOf)[key := node]
      ensures iteration == old(iteration) + [node]
      ensures Kept(old(arena), arena, keyOf.Keys)
    {
      hide Listed, Stored, Inverse, Geometry, Indexes, Partitioned, Constructed, Kept, Valid;
      SizeFits({});
      ghost var linked := arena[node := arena[node].(aux := |iteration|)];
      ghost var keyOf', nodeOf' := keyOf[node := key], nodeOf[key := node];
      NodeLinked(arena, highWater, freeHead, free, iteration, keyOf, node, key, value);
      InverseExtends(keyOf, nodeOf, node, key);
      LinkIntoIteration(node);
      assert arena == linked && arena[node].storage.key == key;
      IndexNewcomer(node, arena[node].storage.key, keyOf);
      Adopt(keyOf', nodeOf');
    }

    /** Takes these keys for the live nodes, once all parts of the table hold exactly them. */
    ghost method Adopt(keys: map<nat, K>, nodes: map<K, nat>)
      requires Geometry() && Indexes(keys) && (bucketCount == 0 ==> iteration == [])
      requires Listed(iteration, arena, keys.Keys) && Stored(arena, keys, {}) && Inverse(keys, nodes)
      requires |iteration| <= MAX_SIZE && highWater <= MAX_SIZE + 1
      requires Partitioned(arena, highWater, freeHead, free, keys.Keys) && Constructed(arena, keys.Keys)
      modifies `keyOf, `nodeOf
      ensures Valid() && keyOf == keys && nodeOf == nodes
    {
      hide Listed, Stored, Inverse, Geometry, Partitioned, Constructed, Good;
      WithNothing(keys.Keys);
      keyOf, nodeOf := keys, nodes;
    }

    /** Makes room for a node in transit, whose key is absent, and adds it to the table. */
    method AttachNode(node: nat, ghost key: K, ghost value: V)
      requires Linked({}) && Stocked({node}, {node}) && CanGrow() && |iteration| < MAX_SIZE
      requires node < |arena| && arena[node].storage == Live(key, value) && key !in nodeOf
      modifies this, buckets
      ensures Valid() && (if bucketCount == old(bucketCount) then buckets == old(buckets) else fresh(buckets))
      ensures keyOf == old(keyOf)[node := key] && nodeOf == old(nodeOf)[key := node]
      ensures iteration == old(iteration) + [node]
      ensures Kept(old(arena), arena, keyOf.Keys)
      ensures maxLoadFactor == old(maxLoadFactor) && hash == old(hash) && CapacityFollows()
      ensures bucketCount == GrownCount(old(bucketCount), old(maxLoadCapacity), |old(iteration)|)
    {
      hide Linked, Kept;
      ReserveForOneMore();
      LinkAndIndex(node, key, value);
    }

    /** Destroys and releases a node in transit. */
    method DiscardNode(node: nat)
      requires Linked({}) && Stocked({node}, {node}) && node < |arena| && arena[node].storage.Live?
      modifies `arena, `freeHead, `free
      ensures Valid() && Kept(old(arena), arena, keyOf.Keys)
    {
      hide Listed, Stored, Inverse, Geometry, Indexes, Partitioned, Constructed, Kept;
      ghost var live := keyOf.Keys;
      NodeDestroyed(arena, highWater, freeHead, free, live + {node}, iteration, live, live + {node}, node);
      DestroyedIsKept(arena, node, live);
      DestroyValue(node);
      assert live + {node} - {node} == live;
      DeadLink(arena, iteration, live, live, node, freeHead);
      KeptThrough(old(arena), arena, arena[node := arena[node].(aux := freeHead)], live);
      KeptIsStored(old(arena), arena[node := arena[node].(aux := freeHead)], keyOf, {});
      ReleaseNode(node, live + {node});
      WithNothing(live);
    }

    /** Removes the occupant of a bucket from the index table. */
    method Unindex(slot: nat, ghost keys: map<nat, K>)
      requires Geometry() && bucketCount != 0 && Indexes(keys)
      requires slot < bucketCount && buckets[slot].word != 0
      modifies buckets, `slots
      ensures Indexes(keys - {old(buckets[slot].node)})
    {
      hide Good, Sized, TagsOf;
      ghost var slots' := UnindexedIsGood(slot, keys);
      EraseBucket(slot, gap);
      slots := slots';
    }

    lemma UnindexedIsGood(slot: nat, keys: map<nat, K>) returns (slots': map<nat, nat>)
      requires Geometry() && bucketCount != 0 && Indexes(keys)
      requires slot < bucketCount && buckets[slot].word != 0
      ensures Masked() && gap < bucketCount && slot != gap && buckets[gap].word == 0
      ensures var rest := keys - {buckets[slot].node};
        slots'.Keys == rest.Keys && Good(Closed(buckets[..], slot, gap), Tags(rest), slots', gap)
    {
      hide SettledAt, HeldAt, OrderedAt, LoadCapacity, TagsOf;
      var node := buckets[slot].node;
      slots' := ErasedIsGood(buckets[..], Tags(keys), slots, gap, slot);
      KeysShrink(keys, node);
      TagsShrink(Closed(buckets[..], slot, gap), keys, hash, bucketShift, slots', gap, node);
    }

    /** Destroys a live node's element, unlinks the node and frees it. */
    method FreeNode(node: nat, ghost live: set<nat>)
      requires Partitioned(arena, highWater, freeHead, free, live) && Constructed(arena, live)
      requires Listed(iteration, arena, live) && node in live
      modifies `arena, `iteration, `freeHead, `free
      ensures Partitioned(arena, highWater, freeHead, free, live - {node}) && Constructed(arena, live - {node})
      ensures Listed(iteration, arena, live - {node}) && Kept(old(arena), arena, live - {node})
      ensures node < |old(arena)| && old(arena)[node].aux < |old(iteration)|
      ensures iteration == SwapErased(old(iteration), old(arena)[node].aux)
    {
      hide Listed, Partitioned, Constructed, Kept, Unlinked;
      LiveIsConstructed(arena, iteration, live, node);
      ghost var rest := live - {node};
      NodeDestroyed(arena, highWater, freeHead, free, live, iteration, live, live, node);
      DestroyedIsKept(arena, node, rest);
      DestroyValue(node);
      ghost var destroyed := arena;
      UnlinkedIsPartitioned(arena, highWater, freeHead, free, live, iteration, live, rest, node);
      UnlinkFromIteration(node, live);
      SmallerLive(destroyed, arena, live, rest);
      KeptThrough(old(arena), destroyed, arena, rest);
      ghost var unlinked := arena;
      DeadLink(arena, iteration, rest, rest, node, freeHead);
      ReleaseNode(node, live);
      KeptThrough(old(arena), unlinked, arena, rest);
    }

    /** Tears down the element at a bucket already located, whether or not it was moved out. */
    method EraseLocated(slot: nat, ghost moved: set<nat>)
      requires Linked(moved) && Stocked({}, {}) && slot < bucketCount == buckets.Length && buckets[slot].word != 0
      requires moved <= {buckets[slot].node}
      modifies `arena, `iteration, `freeHead, `free, `keyOf, `nodeOf, `slots, buckets
      ensures Valid()
      ensures var node := old(buckets[slot].node);
        && node in old(keyOf) && node < |old(arena)| && old(arena)[node].aux < |old(iteration)|
        && keyOf == old(keyOf) - {node} && nodeOf == old(nodeOf) - {old(keyOf)[node]}
        && iteration == SwapErased(old(iteration), old(arena)[node].aux)
      ensures Kept(old(arena), arena, keyOf.Keys)
    {
      hide Listed, Stored, Inverse, Geometry, Indexes, Partitioned, Constructed, Kept;
      OccupantIsLive(slot, moved);
      ghost var live := keyOf.Keys;
      WithNothing(live);
      var node := buckets[slot].node;
      Unindex(slot, keyOf);
      FreeNode(node, live);
      KeysShrink(keyOf, node);
      InverseShrinks(keyOf, nodeOf, node);
      StoredShrinks(old(arena), arena, keyOf, moved, node);
      ShorterBySwap(old(iteration), old(arena)[node].aux);
      keyOf, nodeOf := keyOf - {node}, nodeOf - {keyOf[node]};
      WithNothing(keyOf.Keys);
    }

    lemma OccupantIsLive(slot: nat, moved: set<nat>)
      requires Linked(moved) && slot < bucketCount == buckets.Length && buckets[slot].word != 0
      ensures slot < buckets.Length && buckets[slot].node in keyOf && bucketCount != 0
    {
      ResidentIsCarried(buckets[..], Tags(keyOf), slots, gap, slot);
    }

    lemma ElementsAreStored()
      requires Valid()
      ensures Stored(arena, keyOf, {}) && Inverse(keyOf, nodeOf)
    {
    }

    // ---- find-or-insert ----------------------------------------------------

    /** What an insertion that does not overwrite does: `node` is where the key now lives. */
    twostate predicate AddsIfAbsent(key: K, value: V, node: nat, inserted: bool)
      reads this
    {
      && inserted == (key !in old(nodeOf))
      && nodeOf == (if inserted then old(nodeOf)[key := node] else old(nodeOf))
      && key in nodeOf && nodeOf[key] == node
      && Contents() == (if inserted then old(Contents())[key := value] else old(Contents()))
      && iteration == (if inserted then old(iteration) + [node] else old(iteration))
      && maxLoadFactor == old(maxLoadFactor) && hash == old(hash)
      && bucketCount == (if inserted then GrownCount(old(bucketCount), old(maxLoadCapacity), |old(iteration)|)
                         else old(bucketCount))
      && CapacityFollows()
    }

    /** There is room for this key, or it is present already. */
    ghost predicate HasRoomFor(key: K)
      reads `nodeOf, `iteration, `bucketCount, `maxLoadCapacity
    {
      key in nodeOf || (|iteration| < MAX_SIZE && CanGrow())
    }

    /** `emplace_impl`: constructs the element first, then probes for its key. */
    method EmplaceImpl(key: K, value: V) returns (node: nat, inserted: bool)
      requires Valid() && HasRoomFor(key)
      modifies this, buckets
      ensures Valid() && (if bucketCount == old(bucketCount) then buckets == old(buckets) else fresh(buckets))
      ensures AddsIfAbsent(key, value, node, inserted)
    {
      hide Linked, Stocked, Stored, Inverse, Kept, Denoted;
      ElementsAreStored();
      node := MakeNode(key, value);
      ghost var made := arena;
      var existing := Locate(arena[node].storage.key);
      if existing != bucketCount {
        var resident := buckets[existing].node;
        DiscardNode(node);
        KeptThrough(old(arena), made, arena, keyOf.Keys);
        KeptIsDenoted(old(arena), arena, keyOf, nodeOf);
        node, inserted := resident, false;
      } else {
        AttachNode(node, key, value);
        AttachedDenotes(old(arena), made, arena, old(keyOf), old(nodeOf), node, key, value);
        inserted := true;
      }
    }

    /** `try_emplace_impl`: probes first and constructs only an absent element. */
    method TryEmplaceImpl(key: K, value: V) returns (node: nat, inserted: bool)
      requires Valid() && HasRoomFor(key)
      modifies this, buckets
      ensures Valid() && (if bucketCount == old(bucketCount) then buckets == old(buckets) else fresh(buckets))
      ensures AddsIfAbsent(key, value, node, inserted)
    {
      hide Linked, Stocked, Stored, Inverse, Kept, Denoted;
      ElementsAreStored();
      var existing := Locate(key);
      if existing != bucketCount {
        return buckets[existing].node, false;
      }
      node := MakeNode(key, value);
      ghost var made := arena;
      AttachNode(node, key, value);
      AttachedDenotes(old(arena), made, arena, old(keyOf), old(nodeOf), node, key, value);
      inserted := true;
    }

    /** Assigns to the mapped value of a live node. */
    method AssignValue(node: nat, value: V)
      requires Valid() && node in keyOf
      modifies `arena
      ensures Valid() && Contents() == old(Contents())[keyOf[node] := value] && Order() == old(Order())
    {
      hide Geometry, Indexes, Listed, Partitioned, Constructed, Stored, Inverse, Denoted;
      ElementsAreStored();
      WithNothing(keyOf.Keys);
      ValueAssigned(arena, highWater, freeHead, free, iteration, keyOf, nodeOf, node, value);
      arena := arena[node := arena[node].(storage := Live(arena[node].storage.key, value))];
    }

    /** `insert_or_assign_impl`. */
    method InsertOrAssignImpl(key: K, value: V) returns (node: nat, inserted: bool)
      requires Valid() && HasRoomFor(key)
      modifies this, buckets
      ensures Valid() && (if bucketCount == old(bucketCount) then buckets == old(buckets) else fresh(buckets))
      ensures inserted == (key !in old(nodeOf))
      ensures key in nodeOf && nodeOf[key] == node
      ensures nodeOf == if inserted then old(nodeOf)[key := node] else old(nodeOf)
      ensures Contents() == old(Contents())[key := value]
      ensures iteration == if inserted then old(iteration) + [node] else old(iteration)
      ensures maxLoadFactor == old(maxLoadFactor) && hash == old(hash) && CapacityFollows()
      ensures bucketCount == if inserted then GrownCount(old(bucketCount), old(maxLoadCapacity), |old(iteration)|)
                             else old(bucketCount)
    {
      hide Linked, Stocked, Denoted;
      var existing := Locate(key);
      if existing != bucketCount {
        node := buckets[existing].node;
        KeyOfNode(key);
        AssignValue(node, value);
        inserted := false;
      } else {
        node, inserted := TryEmplaceImpl(key, value);
      }
    }

    lemma KeyOfNode(key: K)
      requires Valid() && key in nodeOf
      ensures nodeOf[key] in keyOf && keyOf[nodeOf[key]] == key && nodeOf[key := nodeOf[key]] == nodeOf
    {
    }

    // ---- erasing -----------------------------------------------------------

    /** What erasing the element of `node` does. */
    twostate predicate Removes(node: nat)
      reads this
    {
      && node in old(keyOf) && node < |old(arena)| && old(arena)[node].aux < |old(iteration)|
      && keyOf == old(keyOf) - {node} && nodeOf == old(nodeOf) - {old(keyOf)[node]}
      && Contents() == old(Contents()) - {old(keyOf)[node]}
      && iteration == SwapErased(old(iteration), old(arena)[node].aux)
    }

    /** Erases the element of a live node, found through its own key. */
    method EraseNode(node: nat)
      requires Valid() && node in keyOf
      modifies `arena, `iteration, `freeHead, `free, `keyOf, `nodeOf, `slots, buckets
      ensures Valid() && Removes(node)
    {
      hide Linked, Stocked, Stored, Inverse, Kept, Denoted, SwapErased;
      NodeOfKey(node);
      ElementsAreStored();
      var slot := Locate(arena[node].storage.key);
      EraseLocated(slot, {});
      DetachedDenotes(old(arena), arena, old(keyOf), old(nodeOf), node);
    }

    lemma NodeOfKey(node: nat)
      requires Valid() && node in keyOf
      ensures node < |arena| && arena[node].storage.Live? && arena[node].storage.key == keyOf[node]
      ensures keyOf[node] in nodeOf && nodeOf[keyOf[node]] == node
      ensures buckets.Length == bucketCount
      ensures arena[node].aux < |iteration| && iteration[arena[node].aux] == node
    {
    }

    /** `erase(key)`: the number of elements removed. */
    method EraseKey(key: K) returns (count: nat)
      requires Valid()
      modifies `arena, `iteration, `freeHead, `free, `keyOf, `nodeOf, `slots, buckets
      ensures Valid()
      ensures count == if key in old(nodeOf) then 1 else 0
      ensures key in old(nodeOf) ==> Removes(old(nodeOf[key]))
      ensures key !in old(nodeOf) ==> keyOf == old(keyOf) && iteration == old(iteration)
      ensures Contents() == old(Contents()) - {key} && nodeOf == old(nodeOf) - {key}
      ensures Order() == SwappedOut(old(Order()), key)
    {
      hide Linked, Stocked, Stored, Inverse, Kept, Denoted, SwapErased, SwappedOut;
      NothingToRemove(key);
      var slot := Locate(key);
      if slot == bucketCount {
        return 0;
      }
      KeyOfNode(key);
      NodeOfKey(nodeOf[key]);
      ElementsAreStored();
      EraseLocated(slot, {});
      DetachedDenotes(old(arena), arena, old(keyOf), old(nodeOf), old(nodeOf)[key]);
      OrderAfterRemoving(old(nodeOf[key]));
      count := 1;
    }

    /** `erase(iterator)`: returns whatever now stands at the vacated position. */
    method EraseAt(node: nat) returns (next: nat)
      requires Valid() && node in keyOf
      modifies `arena, `iteration, `freeHead, `free, `keyOf, `nodeOf, `slots, buckets
      ensures Valid() && Removes(node)
      ensures next == NodeAt(old(arena)[node].aux)
      ensures Order() == SwapErased(old(Order()), old(arena)[node].aux) == SwappedOut(old(Order()), old(keyOf)[node])
    {
      hide Valid, Denoted, SwapErased, SwappedOut, KeyOrder;
      NodeOfKey(node);
      OrderAfterErasing(node);
      var position := arena[node].aux;
      EraseNode(node);
      OrderAfterRemoving(node);
      next := if position < |iteration| then iteration[position] else NULL_INDEX;
    }

    /** The node at a position of the iteration vector, or the end. */
    function NodeAt(position: nat): nat
      reads `iteration
    {
      if position < |iteration| then iteration[position] else NULL_INDEX
    }

    /** `++iterator`. */
    method Advance(node: nat) returns (next: nat)
      requires Valid() && node in keyOf
      ensures node < |arena| && next == NodeAt(arena[node].aux + 1)
    {
      NodeOfKey(node);
      next := if arena[node].aux + 1 < |iteration| then iteration[arena[node].aux + 1] else NULL_INDEX;
    }

    // ---- lookup ------------------------------------------------------------

    method Find(key: K) returns (node: nat)
      requires Valid()
      ensures node == if key in nodeOf then nodeOf[key] else NULL_INDEX
      ensures key in nodeOf ==> node in keyOf && keyOf[node] == key && node != NULL_INDEX
    {
      var slot := Locate(key);
      if slot == bucketCount {
        return NULL_INDEX;
      }
      NodeIsBelow(key);
      node := buckets[slot].node;
    }

    lemma NodeIsBelow(key: K)
      requires Valid() && key in nodeOf
      ensures nodeOf[key] in keyOf && keyOf[nodeOf[key]] == key && nodeOf[key] < highWater <= MAX_SIZE + 1
    {
      WithNothing(keyOf.Keys);
    }

    method Contains(key: K) returns (found: bool)
      requires Valid()
      ensures found <==> key in Contents()
    {
      ElementsAreStored();
      DenotedKeys(arena, keyOf, nodeOf);
      hide Valid, Denoted, Linked;
      var slot := Locate(key);
      found := slot != bucketCount;
    }

    method Count(key: K) returns (count: nat)
      requires Valid()
      ensures count == if key in Contents() then 1 else 0
    {
      var found := Contains(key);
      count := if found then 1 else 0;
    }

    /** The element of a live node. */
    method Get(node: nat) returns (key: K, value: V)
      requires Valid() && node in keyOf
      ensures key == keyOf[node] && key in Contents() && value == Contents()[key]
    {
      NodeOfKey(node);
      key, value := arena[node].storage.key, arena[node].storage.value;
    }

    // ---- hash policy -------------------------------------------------------

    /** The rehash leaves an empty bucket and its sizes stay within 64 bits. */
    ghost predicate CanRehash(requested: nat)
      reads `iteration, `maxLoadFactor
    {
      && maxLoadFactor > 0.0
      && requested <= 0x8000_0000_0000_0000
      && CountForElements(|iteration|, maxLoadFactor) <= 0x8000_0000_0000_0000
      && RehashIsSafe(requested, |iteration|, maxLoadFactor)
    }

    /** `rehash(requested)`: only the index table changes. */
    method Rehash(requested: nat)
      requires Valid() && CanRehash(requested)
      modifies `buckets, `bucketCount, `bucketShift, `maxLoadCapacity, `slots, `gap
      ensures Valid() && (buckets == old(buckets) || fresh(buckets))
      ensures Contents() == old(Contents()) && Order() == old(Order())
      ensures bucketCount == RehashTarget(requested, |iteration|, maxLoadFactor) && Capped()
      ensures LeastFor(bucketCount, requested, |iteration|, maxLoadFactor)
    {
      hide Listed, Stored, Inverse, Partitioned, Constructed, Good, Denoted,
           TableSize, LoadCapacity, RoundUp, Quotient, RehashIsSafe, LeastFor;
      RehashTargetIsTheLeast(requested, |iteration|, maxLoadFactor);
      RehashTargetFits(requested, |iteration|, maxLoadFactor);
      var minimum := CountForElements(|iteration|, maxLoadFactor);
      var target := if requested < minimum then minimum else requested;
      if target == 0 {
        EmptyIsUnindexed();
        if bucketCount != 0 && |iteration| == 0 {
          buckets := new Bucket[0];
          bucketCount := 0;
          maxLoadCapacity := 0;
          bucketShift := 64;
        }
        return;
      }
      RehashTo(RoundUp(target));
    }

    lemma EmptyIsUnindexed()
      requires Valid() && CountForElements(|iteration|, maxLoadFactor) == 0
      ensures |iteration| == 0 && keyOf.Keys == {}
    {
      CountForElementsIsTableSize(|iteration|, maxLoadFactor);
      ListedCount(iteration, arena, keyOf.Keys);
    }

    /** `reserve(elements)`. */
    method Reserve(elements: nat)
      requires Valid() && CanRehash(CountForElements(elements, maxLoadFactor))
      modifies `buckets, `bucketCount, `bucketShift, `maxLoadCapacity, `slots, `gap
      ensures Valid() && (buckets == old(buckets) || fresh(buckets))
      ensures Contents() == old(Contents()) && Order() == old(Order())
      ensures Capped()
      ensures bucketCount == RehashTarget(CountForElements(elements, maxLoadFactor), |iteration|, maxLoadFactor)
      ensures LeastFor(bucketCount, 0, if |iteration| < elements then elements else |iteration|, maxLoadFactor)
      ensures 0 < elements && |iteration| <= elements && ReserveIsKept(elements, maxLoadFactor) ==>
        maxLoadCapacity >= elements
    {
      hide Linked, Stocked, Denoted, CountForElements, RehashTarget, ReserveIsKept, LeastFor;
      ReserveTargetIsTheLeast(elements, |iteration|, maxLoadFactor);
      Rehash(CountForElements(elements, maxLoadFactor));
      if 0 < elements && |iteration| <= elements {
        ReserveSuffices(elements, |iteration|, maxLoadFactor);
      }
    }

    /** `max_load_factor(factor)`: the table is not rehashed, whatever its load. */
    method SetMaxLoadFactor(factor: real)
      requires Valid()
      modifies `maxLoadFactor, `maxLoadCapacity
      ensures Valid() && Capped() && Contents() == old(Contents()) && Order() == old(Order())
      ensures maxLoadFactor == if factor > 0.0 then factor else 0.8
    {
      hide Listed, Stored, Inverse, Partitioned, Constructed, Indexes, TableSize, LoadCapacity;
      maxLoadFactor := if factor > 0.0 then factor else DEFAULT_MAX_LOAD_FACTOR;
      if bucketCount != 0 {
        CapacityLeavesGap(bucketCount, maxLoadFactor);
        maxLoadCapacity := LoadCapacity(bucketCount, maxLoadFactor);
      }
    }

    // ---- moving elements out and back in -----------------------------------

    /** Moves the element of a live node out; the node keeps its place. */
    method MoveOut(node: nat) returns (key: K, value: V)
      requires Valid() && node in keyOf
      modifies `arena
      ensures Linked({node}) && Stocked({}, {}) && Kept(old(arena), arena, keyOf.Keys - {node})
      ensures node < |old(arena)| == |arena| && arena[node].aux == old(arena)[node].aux
      ensures key == keyOf[node] && key in old(Contents()) && value == old(Contents())[key]
    {
      hide Geometry, Indexes, Listed, Partitioned, Constructed, Stored, Inverse, Kept;
      NodeOfKey(node);
      WithNothing(keyOf.Keys);
      key, value := arena[node].storage.key, arena[node].storage.value;
      var left := residue(key, value);
      ElementMoved(arena, highWater, freeHead, free, iteration, keyOf, node, left.0, left.1);
      arena := arena[node := arena[node].(storage := Live(left.0, left.1))];
    }

    /** `extract(key)`: moves the element into a handle of its own. */
    method Extract(key: K) returns (handle: Handle<K, V>)
      requires Valid()
      modifies `arena, `iteration, `freeHead, `free, `keyOf, `nodeOf, `slots, buckets
      ensures Valid()
      ensures key !in old(nodeOf) ==>
        handle == NoNode && keyOf == old(keyOf) && iteration == old(iteration)
      ensures key in old(nodeOf) ==>
        Removes(old(nodeOf[key])) && key in old(Contents()) && handle == Holding(key, old(Contents())[key])
      ensures Contents() == old(Contents()) - {key} && nodeOf == old(nodeOf) - {key}
      ensures Order() == SwappedOut(old(Order()), key)
    {
      hide Linked, Stocked, Stored, Inverse, Kept, Denoted, SwapErased, SwappedOut;
      NothingToRemove(key);
      var slot := Locate(key);
      if slot == bucketCount {
        return NoNode;
      }
      KeyOfNode(key);
      NodeOfKey(nodeOf[key]);
      ElementsAreStored();
      var node := buckets[slot].node;
      var k, v := MoveOut(node);
      ghost var movedFrom := arena;
      EraseLocated(slot, {node});
      KeysShrink(old(keyOf), node);
      KeptThrough(old(arena), movedFrom, arena, keyOf.Keys);
      DetachedDenotes(old(arena), arena, old(keyOf), old(nodeOf), node);
      OrderAfterRemoving(node);
      handle := Holding(k, v);
    }

    /** `insert(node_type&&)`: an occupied handle is consumed unless its key is present. */
    method InsertNode(handle: Handle<K, V>) returns (node: nat, inserted: bool, rest: Handle<K, V>)
      requires Valid() && (handle.Holding? ==> HasRoomFor(handle.key))
      modifies this, buckets
      ensures Valid() && (if bucketCount == old(bucketCount) then buckets == old(buckets) else fresh(buckets))
      ensures handle.Holding? ==> AddsIfAbsent(handle.key, handle.value, node, inserted)
      ensures handle.NoNode? ==>
        node == NULL_INDEX && !inserted && unchanged(this) && unchanged(old(buckets))
      ensures rest == if inserted then NoNode else handle
    {
      hide Linked, Stocked, Denoted;
      if handle.NoNode? {
        return NULL_INDEX, false, NoNode;
      }
      node, inserted := TryEmplaceImpl(handle.key, handle.value);
      rest := if inserted then NoNode else handle;
    }

    // ---- clearing ----------------------------------------------------------

    /** Destroys the element of every node in the iteration vector. */
    method DestroyAllValues()
      requires Listed(iteration, arena, keyOf.Keys) && Constructed(arena, keyOf.Keys)
      modifies `arena
      ensures Constructed(arena, {}) && |arena| == |old(arena)|
    {
      var i := 0;
      while i < |iteration|
        invariant 0 <= i <= |iteration| && |arena| == |old(arena)|
        invariant Constructed(arena, keyOf.Keys - Leading(iteration, i))
      {
        LeadingGrows(iteration, old(arena), keyOf.Keys, i);
        DestroyValue(iteration[i]);
        i := i + 1;
      }
      LeadingEnds(iteration, old(arena), keyOf.Keys);
    }

    /** Empties every bucket. */
    method BlankBuckets()
      requires Geometry()
      modifies buckets, `slots, `gap
      ensures Indexes(map[])
    {
      hide LoadCapacity, TableSize, Good;
      forall i | 0 <= i < buckets.Length {
        buckets[i] := Bucket(0, 0);
      }
      slots, gap := map[], 0;
      ghost var noKeys: map<nat, K> := map[];
      assert slots.Keys == noKeys.Keys == {};
      if bucketCount != 0 {
        BlankIsGood(buckets[..], Tags(map[]));
      }
    }

    /** `clear()`: the arena and the buckets are kept, and their contents are not. */
    method Clear()
      requires Valid()
      modifies `arena, `highWater, `freeHead, `iteration, `keyOf, `nodeOf, `slots, `gap, `free, buckets
      ensures Valid() && Contents() == map[] && keyOf == map[] && nodeOf == map[] && iteration == []
      ensures highWater == 0 && freeHead == NULL_INDEX && |arena| == |old(arena)|
    {
      hide Listed, Stored, Inverse, Partitioned, Constructed, Geometry, Indexes, Valid;
      if iteration == [] && freeHead == NULL_INDEX && highWater == 0 {
        EmptyIsBlank();
        return;
      }
      ArenaIsChunked();
      DestroyAllValues();
      iteration, highWater, freeHead, free := [], 0, NULL_INDEX, [];
      BlankBuckets();
      AllRaw(arena);
      NothingIsInverse<K>();
      ghost var noKeys: map<nat, K> := map[];
      assert noKeys.Keys == {};
      Adopt(noKeys, map[]);
    }

    lemma ArenaIsChunked()
      requires Valid()
      ensures |arena| % CHUNK_SIZE == 0 && Geometry()
      ensures Listed(iteration, arena, keyOf.Keys) && Constructed(arena, keyOf.Keys)
    {
      WithNothing(keyOf.Keys);
    }

    lemma EmptyIsBlank()
      requires Valid() && iteration == []
      ensures keyOf == map[] && nodeOf == map[]
    {
      ListedCount(iteration, arena, keyOf.Keys);
      assert keyOf.Keys == {};
      assert nodeOf.Keys == {};
    }

    lemma EmptyContents()
      requires Valid() && iteration == []
      ensures Contents() == map[] && Order() == []
    {
      EmptyIsBlank();
    }

    // ---- merging -----------------------------------------------------------

    lemma FactorIsPositive()
      requires Valid()
      ensures maxLoadFactor > 0.0
    {
    }

    /** The map has the keys that have nodes. */
    lemma KeysHaveNodes()
      requires Valid()
      ensures Contents().Keys == nodeOf.Keys && |iteration| <= MAX_SIZE
    {
      DenotedKeys(arena, keyOf, nodeOf);
    }

    /** The number of elements is the size of the map. */
    lemma SizeIsCardinality()
      requires Valid()
      ensures |Contents()| == |iteration| <= MAX_SIZE && Contents().Keys == nodeOf.Keys
    {
      SizeFits({});
      DenotedKeys(arena, keyOf, nodeOf);
    }

    /** One round of the merging loop: `node` is a live node of `source`. */
    method MergeOne(source: HashTable<K, V>, node: nat)
      requires Valid() && source.Valid() && this != source && buckets != source.buckets
      requires node in source.keyOf && Growable() && (source.keyOf[node] in nodeOf || |iteration| < MAX_SIZE)
      modifies this, buckets
      modifies source`arena, source`iteration, source`freeHead, source`free, source`keyOf, source`nodeOf, source`slots
      modifies source.buckets
      ensures Valid() && source.Valid() && buckets != source.buckets && (buckets == old(buckets) || fresh(buckets))
      ensures Growable() && hash == old(hash) && maxLoadFactor == old(maxLoadFactor)
      ensures |iteration| == |old(iteration)| + (if old(source.keyOf)[node] in old(nodeOf) then 0 else 1)
      ensures SizeFields() == if old(source.keyOf)[node] in old(nodeOf) then old(SizeFields())
                              else Grown(old(SizeFields()), |old(iteration)|, maxLoadFactor)
      ensures bucketCount == old(bucketCount) ==> buckets == old(buckets)
      ensures var key := old(source.keyOf)[node];
        if key in old(nodeOf) then
          && Whole() == old(Whole()) && source.Whole() == old(source.Whole())
          && nodeOf == old(nodeOf) && source.nodeOf == old(source.nodeOf) && source.keyOf == old(source.keyOf)
        else
          && key in old(source.Contents())
          && Whole() == Entries(old(Contents())[key := old(source.Contents())[key]], old(Order()) + [key])
          && source.Whole() == Entries(old(source.Contents()) - {key}, SwappedOut(old(source.Order()), key))
          && key in nodeOf && nodeOf == old(nodeOf)[key := nodeOf[key]]
          && source.nodeOf == old(source.nodeOf) - {key} && source.keyOf == old(source.keyOf) - {node}
    {
      hide Linked, Stocked, Stored, Inverse, Kept, Denoted, SwapErased, SwappedOut;
      source.NodeOfKey(node);
      var mine := Locate(source.arena[node].storage.key);
      if mine != bucketCount {
        return;
      }
      source.ElementsAreStored();
      AlwaysCanGrow();
      var slot := source.Locate(source.arena[node].storage.key);
      var key, value := source.MoveOut(node);
      ghost var movedFrom := source.arena;
      var landed, inserted := EmplaceImpl(key, value);
      OrderAfterAdding(key);
      source.EraseLocated(slot, {node});
      KeysShrink(old(source.keyOf), node);
      KeptThrough(old(source.arena), movedFrom, source.arena, source.keyOf.Keys);
      DetachedDenotes(old(source.arena), source.arena, old(source.keyOf), old(source.nodeOf), node);
      source.OrderAfterRemoving(node);
    }

    /** `merge_from(source)`: moves over the elements whose keys are absent here. */
    method MergeFrom(source: HashTable<K, V>)
      requires Valid() && source.Valid() && this != source && buckets != source.buckets
      requires UnionSize(source.Contents(), Contents()) <= MAX_SIZE && Growable()
      modifies this, buckets
      modifies source`arena, source`iteration, source`freeHead, source`free, source`keyOf, source`nodeOf, source`slots
      modifies source.buckets
      ensures Valid() && source.Valid() && buckets != source.buckets && (buckets == old(buckets) || fresh(buckets))
      ensures Growable() && hash == old(hash) && maxLoadFactor == old(maxLoadFactor)
      ensures Contents() == old(source.Contents()) + old(Contents())
      ensures source.Contents() == Restricted(old(source.Contents()), old(Contents()).Keys)
      ensures |Contents()| + |source.Contents()| == old(|Contents()| + |source.Contents()|)
      ensures |old(iteration)| <= |iteration|
      ensures SizeFields()
           == GrownBy(old(SizeFields()), |old(iteration)|, |iteration| - |old(iteration)|, maxLoadFactor)
      ensures bucketCount == old(bucketCount) ==> buckets == old(buckets)
      ensures |iteration| == |old(iteration)| || (old(bucketCount) != 0 && |iteration| <= old(maxLoadCapacity)) ==>
        buckets == old(buckets) && SizeFields() == old(SizeFields())
      ensures Order() == old(Order()) + Lacking(old(source.Order()), old(Contents()).Keys)
      ensures source.Order() == AllSwappedOut(old(source.Order()), Lacking(old(source.Order()), old(Contents()).Keys))
      ensures Extends(old(nodeOf), nodeOf) && Extends(source.nodeOf, old(source.nodeOf))
    {
      hide Valid, Contents, Denoted, Order, Growable, Pending, MergedUpTo, Extends,
           Restricted, ListsOnce, Lacking, AllSwappedOut, UnionSize, GrownBy;
      var nodes := source.iteration;
      ghost var mine, theirs, sizes := Whole(), source.Whole(), SizeFields();
      ghost var keys := source.OrderIsPending();
      MergingStarts(mine, theirs);
      FactorIsPositive();
      OneGrowth(sizes, |iteration|, maxLoadFactor);
      ExtendsItself(nodeOf);
      ExtendsItself(source.nodeOf);
      var i := 0;
      while i < |nodes|
        invariant 0 <= i <= |nodes| && Valid() && source.Valid() && buckets != source.buckets
        invariant buckets == old(buckets) || fresh(buckets)
        invariant Growable() && hash == old(hash) && maxLoadFactor == old(maxLoadFactor)
        invariant |old(iteration)| <= |iteration|
        invariant SizeFields() == GrownBy(sizes, |old(iteration)|, |iteration| - |old(iteration)|, maxLoadFactor)
        invariant bucketCount == old(bucketCount) ==> buckets == old(buckets)
        invariant Pending(source.keyOf, nodes, keys, i)
        invariant MergedUpTo(mine, theirs, i, Whole(), source.Whole())
        invariant Extends(old(nodeOf), nodeOf) && Extends(source.nodeOf, old(source.nodeOf))
      {
        ghost var nodeOf', theirNodes, now, size := nodeOf, source.nodeOf, SizeFields(), |iteration|;
        MergeNext(source, nodes, i, keys, mine, theirs);
        GrowthChain(sizes, now, SizeFields(), |old(iteration)|, size, |iteration|, maxLoadFactor);
        ExtendsChain(old(nodeOf), nodeOf', nodeOf);
        ExtendsChain(source.nodeOf, theirNodes, old(source.nodeOf));
        i := i + 1;
      }
      MergingEnds(mine, theirs, Whole(), source.Whole());
      GrowingIsMonotone(sizes, |old(iteration)|, |iteration| - |old(iteration)|, maxLoadFactor);
    }

    /** Offers the node at position `i` of the list, after those before it. */
    method MergeNext(source: HashTable<K, V>, nodes: seq<nat>, i: nat,
                     ghost keys: seq<K>, ghost mine: Entries<K, V>, ghost theirs: Entries<K, V>)
      requires Valid() && source.Valid() && this != source && buckets != source.buckets && Growable()
      requires i < |nodes| && Pending(source.keyOf, nodes, keys, i) && keys == theirs.order
      requires ListsOnce(keys, theirs.values.Keys) && UnionSize(theirs.values, mine.values) <= MAX_SIZE
      requires MergedUpTo(mine, theirs, i, Whole(), source.Whole())
      modifies this, buckets
      modifies source`arena, source`iteration, source`freeHead, source`free, source`keyOf, source`nodeOf, source`slots
      modifies source.buckets
      ensures Valid() && source.Valid() && buckets != source.buckets && (buckets == old(buckets) || fresh(buckets))
      ensures Growable() && hash == old(hash) && maxLoadFactor == old(maxLoadFactor)
      ensures |old(iteration)| <= |iteration|
      ensures SizeFields()
           == GrownBy(old(SizeFields()), |old(iteration)|, |iteration| - |old(iteration)|, maxLoadFactor)
      ensures bucketCount == old(bucketCount) ==> buckets == old(buckets)
      ensures Pending(source.keyOf, nodes, keys, i + 1)
      ensures MergedUpTo(mine, theirs, i + 1, Whole(), source.Whole())
      ensures Extends(old(nodeOf), nodeOf) && Extends(source.nodeOf, old(source.nodeOf))
    {
      hide Valid, Denoted, Order, Growable, Pending, MergedUpTo, SwappedOut, UnionSize, Grown, GrownBy;
      PendingNow(source.keyOf, nodes, keys, i);
      PendingAfter(source.keyOf, nodes, keys, i);
      SizeIsCardinality();
      FactorIsPositive();
      OneGrowth(SizeFields(), |iteration|, maxLoadFactor);
      if keys[i] in nodeOf {
        MergingSkips(mine, theirs, i, Whole(), source.Whole());
      } else {
        MergingTakes(mine, theirs, i, Whole(), source.Whole());
      }
      MergeOne(source, nodes[i]);
    }

    /** The keys in iteration order, each still at its node. */
    lemma OrderIsPending() returns (keys: seq<K>)
      requires Valid()
      ensures Pending(keyOf, iteration, keys, 0) && |keys| == |iteration|
      ensures keys == Order()
      ensures ListsOnce(keys, Contents().Keys)
    {
      KeyOrderLists(iteration, arena, keyOf, nodeOf);
      keys := KeyOrder(iteration, keyOf);
      DenotedKeys(arena, keyOf, nodeOf);
    }

    /** `merge_from(*this)`: every key is found, so nothing is moved. */
    method MergeFromSelf()
      requires Valid()
      ensures unchanged(this) && unchanged(buckets)
    {
      var nodes := iteration;
      for i := 0 to |nodes| {
        IsListed(i);
        var found := Contains(arena[nodes[i]].storage.key);
        if found {
          continue;
        }
        assert false;
      }
    }

    lemma IsListed(i: nat)
      requires Valid() && i < |iteration|
      ensures iteration[i] in keyOf && iteration[i] < |arena| && arena[iteration[i]].storage.Live?
      ensures arena[iteration[i]].storage.key == keyOf[iteration[i]] && arena[iteration[i]].aux == i
      ensures keyOf[iteration[i]] in Contents()
    {
      DenotedKeys(arena, keyOf, nodeOf);
    }

    // ---- ranges ------------------------------------------------------------

    /** `insert(value)`, while there is room. */
    method Insert(key: K, value: V) returns (node: nat, inserted: bool)
      requires Valid() && HasRoomFor(key)
      modifies this, buckets
      ensures Valid() && (buckets == old(buckets) || fresh(buckets))
      ensures |iteration| == |old(iteration)| + (if key in old(nodeOf) then 0 else 1)
      ensures Order() == if key in old(nodeOf) then old(Order()) else old(Order()) + [key]
      ensures maxLoadFactor == old(maxLoadFactor) && hash == old(hash)
      ensures CapacityFollows() && (old(Growable()) ==> Growable())
      ensures Contents() == map[key := value] + old(Contents()) && Extends(old(nodeOf), nodeOf)
      ensures SizeFields() == if key in old(nodeOf) then old(SizeFields())
                              else Grown(old(SizeFields()), |old(iteration)|, maxLoadFactor)
      ensures bucketCount == old(bucketCount) ==> buckets == old(buckets)
    {
      hide Valid, Denoted, Order, FactorIsSensible, LoadCapacity, HasRoomFor;
      KeysHaveNodes();
      node, inserted := EmplaceImpl(key, value);
      OrderAfterAdding(key);
    }

    /** `insert(first, last)`. */
    method InsertRange(elements: seq<(K, V)>)
      requires Valid() && Growable() && UnionSize(Listing(elements), Contents()) <= MAX_SIZE
      modifies this, buckets
      ensures Valid() && Growable() && (buckets == old(buckets) || fresh(buckets))
      ensures Contents() == Listing(elements) + old(Contents())
      ensures Extends(old(nodeOf), nodeOf) && maxLoadFactor == old(maxLoadFactor) && hash == old(hash)
      ensures Order() == old(Order()) + Newcomers(elements, old(Contents()).Keys)
      ensures |old(iteration)| <= |iteration|
      ensures SizeFields()
           == GrownBy(old(SizeFields()), |old(iteration)|, |iteration| - |old(iteration)|, maxLoadFactor)
      ensures bucketCount == old(bucketCount) ==> buckets == old(buckets)
      ensures |iteration| == |old(iteration)| || (old(bucketCount) != 0 && |iteration| <= old(maxLoadCapacity)) ==>
        buckets == old(buckets) && SizeFields() == old(SizeFields())
    {
      hide Valid, Contents, Growable, HasRoomFor, Order, Extends, Listing, Newcomers, UnionSize, GrownBy;
      ghost var before := Contents();
      ghost var sizes := SizeFields();
      var i := 0;
      ListingStarts(Contents());
      NoNewcomers<K, V>(before.Keys);
      FactorIsPositive();
      OneGrowth(sizes, |iteration|, maxLoadFactor);
      ExtendsItself(nodeOf);
      while i < |elements|
        invariant 0 <= i <= |elements| && Valid() && (buckets == old(buckets) || fresh(buckets))
        invariant Growable() && maxLoadFactor == old(maxLoadFactor) && hash == old(hash)
        invariant Contents() == Listing(elements[..i]) + before
        invariant Extends(old(nodeOf), nodeOf)
        invariant Order() == old(Order()) + Newcomers(elements[..i], before.Keys)
        invariant |old(iteration)| <= |iteration|
        invariant SizeFields() == GrownBy(sizes, |old(iteration)|, |iteration| - |old(iteration)|, maxLoadFactor)
        invariant bucketCount == old(bucketCount) ==> buckets == old(buckets)
      {
        ghost var nodes, now, size := nodeOf, SizeFields(), |iteration|;
        InsertNext(elements, i, before, old(Order()));
        GrowthChain(sizes, now, SizeFields(), |old(iteration)|, size, |iteration|, maxLoadFactor);
        ExtendsChain(old(nodeOf), nodes, nodeOf);
        i := i + 1;
      }
      assert elements[..i] == elements;
      GrowingIsMonotone(sizes, |old(iteration)|, |iteration| - |old(iteration)|, maxLoadFactor);
    }

    /** Inserts the entry at position `i`, after those before it. */
    method InsertNext(elements: seq<(K, V)>, i: nat, ghost before: map<K, V>, ghost order: seq<K>)
      requires Valid() && Growable() && i < |elements| && UnionSize(Listing(elements), before) <= MAX_SIZE
      requires Contents() == Listing(elements[..i]) + before
      requires Order() == order + Newcomers(elements[..i], before.Keys)
      modifies this, buckets
      ensures Valid() && Growable() && (buckets == old(buckets) || fresh(buckets))
      ensures Contents() == Listing(elements[..i + 1]) + before
      ensures Extends(old(nodeOf), nodeOf) && maxLoadFactor == old(maxLoadFactor) && hash == old(hash)
      ensures Order() == order + Newcomers(elements[..i + 1], before.Keys)
      ensures |old(iteration)| <= |iteration|
      ensures SizeFields()
           == GrownBy(old(SizeFields()), |old(iteration)|, |iteration| - |old(iteration)|, maxLoadFactor)
      ensures bucketCount == old(bucketCount) ==> buckets == old(buckets)
    {
      hide Valid, Contents, Growable, HasRoomFor, Order, Extends, Listing, Newcomers, UnionSize, Grown, GrownBy;
      ListingGrows(elements, i, before);
      ListingFits(elements, i, before, Contents());
      SizeIsCardinality();
      NextNewcomer(order, elements, before, i);
      FactorIsPositive();
      OneGrowth(SizeFields(), |iteration|, maxLoadFactor);
      HasRoom(elements[i].0);
      var node, inserted := Insert(elements[i].0, elements[i].1);
    }

    lemma HasRoom(key: K)
      requires Valid() && Growable() && (key in nodeOf || |iteration| < MAX_SIZE)
      ensures HasRoomFor(key)
    {
      hide Valid, Growable;
      if key !in nodeOf {
        AlwaysCanGrow();
      }
    }

    /** The nodes that an iterator range visits. */
    method NodesBetween(first: nat, last: nat, ghost from: nat, ghost end: nat) returns (nodes: seq<nat>)
      requires Valid() && from <= end <= |iteration| && first == NodeAt(from) && last == NodeAt(end)
      ensures nodes == iteration[from..end]
    {
      hide Linked, Stocked;
      var it: nat := first;
      ghost var position: nat := from;
      nodes := [];
      assert nodes == iteration[from..position];
      while it != last
        invariant from <= position <= end && it == NodeAt(position)
        invariant nodes == iteration[from..position]
        decreases end - position
      {
        PositionIsUnique(position, end);
        IsListed(position);
        nodes := nodes + [it];
        it := Advance(it);
        position := position + 1;
      }
      PositionIsUnique(position, end);
    }

    lemma PositionIsUnique(left: nat, right: nat)
      requires Valid() && left <= right <= |iteration|
      ensures NodeAt(left) == NodeAt(right) <==> left == right
    {
      if left < right {
        IsListed(left);
        NodeIsBelow(keyOf[iteration[left]]);
        if right < |iteration| {
          IsListed(right);
        }
      }
    }

    /** `erase(first, last)`: removes exactly the elements of the range. */
    method EraseRange(first: nat, last: nat, ghost from: nat, ghost end: nat) returns (next: nat)
      requires Valid() && from <= end <= |iteration| && first == NodeAt(from) && last == NodeAt(end)
      modifies `arena, `iteration, `freeHead, `free, `keyOf, `nodeOf, `slots, buckets
      ensures Valid() && next == last
      ensures Contents() == old(Contents()) - (set k | k in old(Order())[from..end])
      ensures nodeOf == old(nodeOf) - (set k | k in old(Order())[from..end])
      ensures Order() == AllSwappedOut(old(Order()), old(Order())[from..end])
    {
      hide Valid, Denoted, FirstKeys, Pending, NodeAt, SwappedOut;
      var doomed := NodesBetween(first, last, from, end);
      ghost var keys := RangeIsPending(from, end);
      NoFirstKeys(keys);
      var i := 0;
      while i < |doomed|
        invariant 0 <= i <= |doomed| && Valid()
        invariant Pending(keyOf, doomed, keys, i)
        invariant Contents() == old(Contents()) - FirstKeys(keys, i)
        invariant nodeOf == old(nodeOf) - FirstKeys(keys, i)
        invariant Order() == AllSwappedOut(old(Order()), keys[..i])
      {
        PendingNow(keyOf, doomed, keys, i);
        NextKey(keys, i);
        PendingAfter(keyOf, doomed, keys, i);
        NextSwappedOut(old(Order()), keys, i);
        label before: EraseNode(doomed[i]);
        OrderAfterRemoving@before(doomed[i]);
        i := i + 1;
      }
      assert keys[..i] == keys;
      AllKeys(keys, set k | k in keys);
      next := last;
    }

    lemma RangeIsPending(from: nat, end: nat) returns (keys: seq<K>)
      requires Valid() && from <= end <= |iteration|
      ensures Pending(keyOf, iteration[from..end], keys, 0) && |keys| == end - from
      ensures forall i, j :: 0 <= i < j < |keys| ==> keys[i] != keys[j]
      ensures keys == Order()[from..end]
    {
      hide Valid, Denoted, KeyOrder;
      var order := OrderIsPending();
      SliceIsPending(keyOf, iteration, order, Contents().Keys, from, end);
      keys := order[from..end];
    }

    // ---- copying -----------------------------------------------------------

    /** `copy_contents_from(other)`, into a table without elements. */
    method CopyContentsFrom(other: HashTable<K, V>)
      requires Valid() && iteration == [] && FactorIsSensible(maxLoadFactor)
      requires other.Valid() && this != other && buckets != other.buckets
      modifies this, buckets
      ensures Valid() && (buckets == old(buckets) || fresh(buckets))
      ensures maxLoadFactor == old(maxLoadFactor) && hash == old(hash)
      ensures Contents() == other.Contents() && Order() == other.Order()
      ensures if other.iteration == [] then unchanged(this) && unchanged(old(buckets))
              else Capped() && SizeFields() == Copied(|other.iteration|, maxLoadFactor)
    {
      hide Valid, Contents, Order, FirstKeys, Extends, Restricted,
           LoadCapacity, RehashTarget, CountForElements, CapacityFor, Grown;
      EmptyContents();
      ghost var keys := other.OrderIsPending();
      ghost var all := other.Contents();
      if |other.iteration| == 0 {
        other.EmptyContents();
        return;
      }
      CopyCanReserve(other);
      Reserve(|other.iteration|);
      RestrictedEnds(all, keys);
      ghost var reserved := SizeFields();
      var i := 0;
      while i < |other.iteration|
        invariant 0 <= i <= |other.iteration| && Valid() && Capped()
        invariant (buckets == old(buckets) || fresh(buckets)) && buckets != other.buckets
        invariant maxLoadFactor == old(maxLoadFactor) && hash == old(hash) && |iteration| == i
        invariant SizeFields() == GrownBy(reserved, 0, i, maxLoadFactor)
        invariant Contents() == Restricted(all, FirstKeys(keys, i)) && Order() == keys[..i]
      {
        CopyElement(other, i, keys, all);
        i := i + 1;
      }
    }

    /** Copies the element at position `i`, after those before it. */
    method CopyElement(other: HashTable<K, V>, i: nat, ghost keys: seq<K>, ghost all: map<K, V>)
      requires Valid() && Capped() && FactorIsSensible(maxLoadFactor) && |iteration| == i < |other.iteration|
      requires other.Valid() && this != other && buckets != other.buckets
      requires keys == other.Order() && all == other.Contents() && ListsOnce(keys, all.Keys)
      requires Contents() == Restricted(all, FirstKeys(keys, i)) && Order() == keys[..i]
      modifies this, buckets
      ensures Valid() && Capped() && (buckets == old(buckets) || fresh(buckets))
      ensures maxLoadFactor == old(maxLoadFactor) && hash == old(hash) && |iteration| == i + 1
      ensures SizeFields() == Grown(old(SizeFields()), i, maxLoadFactor)
      ensures Contents() == Restricted(all, FirstKeys(keys, i + 1)) && Order() == keys[..i + 1]
    {
      hide Valid, Denoted, Order, Capped, Grown, FirstKeys, Extends, Restricted;
      other.OrderAt(i);
      other.KeysHaveNodes();
      NextRestricted(all, keys, i);
      KeysHaveNodes();
      HasRoom(keys[i]);
      var key, value := other.Get(other.iteration[i]);
      var node, inserted := Insert(key, value);
    }

    lemma CopyCanReserve(other: HashTable<K, V>)
      requires Valid() && iteration == [] && FactorIsSensible(maxLoadFactor) && other.Valid()
      ensures maxLoadFactor > 0.0 && CanRehash(CountForElements(|other.iteration|, maxLoadFactor))
    {
      hide Listed, Stored, Inverse, Partitioned, Constructed, Good, Indexes, Sized, CountForElements;
      SizeIsReservable(|other.iteration|, maxLoadFactor);
      SizeIsReservable(0, maxLoadFactor);
    }

    /** The copy constructor. */
    constructor CopyOf(other: HashTable<K, V>)
      requires other.Valid() && FactorIsSensible(other.maxLoadFactor)
      ensures Valid() && Capped() && fresh(buckets)
      ensures hash == other.hash && maxLoadFactor == other.maxLoadFactor
      ensures Contents() == other.Contents() && Order() == other.Order()
      ensures SizeFields() == if other.iteration == [] then Sizes(0, 0) else Copied(|other.iteration|, maxLoadFactor)
    {
      hash, residue := other.hash, other.residue;
      buckets := new Bucket[0];
      bucketCount, maxLoadCapacity, bucketShift := 0, 0, 64;
      arena, highWater, freeHead, iteration := [], 0, NULL_INDEX, [];
      maxLoadFactor := other.maxLoadFactor;
      keyOf, nodeOf, slots, gap, free := map[], map[], map[], 0, [];
      new;
      hide Valid, Denoted, Order, LoadCapacity;
      FreshIsValid();
      CopyContentsFrom(other);
    }

    /** `operator=(const hash_table&)`: the maximum load factor is copied, the capacity is not recomputed. */
    method CopyAssign(other: HashTable<K, V>)
      requires Valid() && other.Valid() && FactorIsSensible(other.maxLoadFactor)
      requires this != other ==> buckets != other.buckets
      modifies this, buckets
      ensures Valid() && (buckets == old(buckets) || fresh(buckets))
      ensures maxLoadFactor == other.maxLoadFactor && hash == other.hash
      ensures Contents() == other.Contents() && Order() == other.Order()
      ensures this == other ==> unchanged(this)
      ensures this != other && other.iteration == [] ==>
        (Capped() <==> old(maxLoadCapacity) == CapacityFor(old(bucketCount), other.maxLoadFactor))
      ensures this != other && other.iteration == [] ==>
        bucketCount == old(bucketCount) && maxLoadCapacity == old(maxLoadCapacity)
      ensures this != other && other.iteration != [] ==>
        Capped() && SizeFields() == Copied(|other.iteration|, maxLoadFactor)
    {
      hide Valid, Denoted, Order, LoadCapacity;
      if this == other {
        return;
      }
      Clear();
      AdoptPolicy(other.maxLoadFactor, other.hash);
      CopyContentsFrom(other);
    }

    /** Overwrites the maximum load factor and the hash of a table without elements. */
    method AdoptPolicy(factor: real, newHash: K -> Hash64)
      requires Valid() && iteration == [] && factor > 0.0
      modifies `maxLoadFactor, `hash
      ensures Valid() && maxLoadFactor == factor && hash == newHash
      ensures Contents() == old(Contents()) && Order() == old(Order())
    {
      hide Listed, Stored, Inverse, Partitioned, Constructed, TableSize, LoadCapacity, Good;
      EmptyIsBlank();
      maxLoadFactor, hash := factor, newHash;
      assert Tags(keyOf) == map[] == old(Tags(keyOf));
    }

    // ---- bucket interface --------------------------------------------------

    /** The home bucket of a hash under the current shift. */
    function HomeFromHash(h: Hash64): nat
      reads `bucketShift
    {
      ShiftRight(h, bucketShift)
    }

    /** The home bucket of every key in the table. */
    ghost function Homes(): map<K, nat>
      reads `hash, `nodeOf, `bucketShift
    {
      map k | k in nodeOf :: ShiftRight(hash(k), bucketShift)
    }

    /** `bucket(key)`. */
    method BucketOf(key: K) returns (home: nat)
      requires Valid()
      ensures bucketCount == 0 ==> home == 0
      ensures bucketCount != 0 ==> home == hash(key) * bucketCount / 0x1_0000_0000_0000_0000 < bucketCount
      ensures bucketCount != 0 && key in nodeOf ==> home == Homes()[key]
    {
      if bucketCount == 0 {
        return 0;
      }
      TagFits(hash(key), bucketCount);
      ShiftScales(hash(key), bucketCount);
      home := HomeFromHash(hash(key));
    }

    /** `bucket_size(n)`: a scan that counts the elements with this home. */
    method BucketSize(n: nat) returns (total: nat)
      requires Valid()
      ensures total == |SharingHome(Homes(), n)|
    {
      hide Linked, Stocked, SharingHome, FirstKeys, Denoted, ShiftRight;
      ghost var keys := OrderIsPending();
      SizeIsCardinality();
      assert Homes().Keys == nodeOf.Keys;
      AllSharing(Homes(), keys, n);
      total := 0;
      for i := 0 to |iteration|
        invariant total == |SharingHome(Homes(), n) * FirstKeys(keys, i)|
      {
        IsListed(i);
        NextSharing(Homes(), keys, n, i);
        if HomeFromHash(hash(arena[iteration[i]].storage.key)) == n {
          total := total + 1;
        }
      }
    }

    /** Every key's home is a bucket of the table. */
    lemma HomeIsBucket(key: K)
      requires Valid() && key in nodeOf
      ensures bucketCount != 0 && Homes()[key] < bucketCount
      ensures Homes()[key] == hash(key) * bucketCount / 0x1_0000_0000_0000_0000
    {
      hide Listed, Stored, Good, Partitioned, Constructed, Inverse, ShiftRight;
      if bucketCount == 0 {
        NothingIsIndexed(key);
      } else {
        TagFits(hash(key), bucketCount);
        ShiftScales(hash(key), bucketCount);
      }
    }

    /** A key's bucket word is its circular displacement from home and its fingerprint. */
    lemma WordIsExact(key: K)
      requires Valid() && key in nodeOf
      ensures nodeOf[key] in slots && slots[nodeOf[key]] < buckets.Length == bucketCount
      ensures buckets[slots[nodeOf[key]]].node == nodeOf[key]
      ensures var home := hash(key) * bucketCount / 0x1_0000_0000_0000_0000;
        home < bucketCount && buckets[slots[nodeOf[key]]].word
                           == 256 * ((slots[nodeOf[key]] + bucketCount - home) % bucketCount + 1) + hash(key) % 256
    {
      hide Listed, Stored, Good, Partitioned, Constructed, ShiftRight, LoadCapacity;
      HomeIsBucket(key);
      WordMeaning(buckets[..], Tags(keyOf), slots, gap, nodeOf[key]);
    }

    /** The sizes of all buckets add up to the size of the table. */
    lemma BucketSizesAddUp()
      requires Valid()
      ensures SumOfSizes(Homes(), bucketCount) == |iteration|
    {
      hide Valid, SumOfSizes, ShiftRight;
      SizeIsCardinality();
      assert Homes().Keys == nodeOf.Keys;
      assert |Homes()| == |Homes().Keys| == |nodeOf.Keys|;
      forall k | k in Homes() ensures Homes()[k] < bucketCount {
        HomeIsBucket(k);
      }
      BucketsPartition(Homes(), bucketCount);
    }

    /** A live node whose home is this bucket. */
    ghost predicate IsHomed(node: nat, home: nat)
      reads `hash, `keyOf, `bucketShift
    {
      node in keyOf && ShiftRight(hash(keyOf[node]), bucketShift) == home
    }

    /** `advance_to_match`: the first position from `position` on whose element has this home. */
    method AdvanceToMatch(home: nat, position: nat) returns (next: nat)
      requires Valid() && position <= |iteration|
      ensures position <= next <= |iteration|
      ensures forall i :: position <= i < next ==> !IsHomed(iteration[i], home)
      ensures next < |iteration| ==> IsHomed(iteration[next], home)
      ensures forall i :: position <= i < next ==> Order()[i] in nodeOf && Homes()[Order()[i]] != home
      ensures next < |iteration| ==> Order()[next] in nodeOf && Homes()[Order()[next]] == home
    {
      hide ShiftRight, Linked, Stocked;
      next := position;
      while next < |iteration|
        invariant position <= next <= |iteration|
        invariant forall i :: position <= i < next ==> !IsHomed(iteration[i], home)
        invariant forall i :: position <= i < next ==> Order()[i] in nodeOf && Homes()[Order()[i]] != home
      {
        OrderAt(next);
        HomedMeaning(iteration[next], home);
        IsListed(next);
        if HomeFromHash(hash(arena[iteration[next]].storage.key)) == home {
          return;
        }
        next := next + 1;
      }
    }

    /** From `begin(n)` to `end(n)`: visits each element with home `n` exactly once, and no other. */
    method BucketWalk(n: nat) returns (visited: seq<nat>)
      requires Valid()
      ensures forall i, j :: 0 <= i < j < |visited| ==> visited[i] != visited[j]
      ensures forall x :: x in visited <==> x in keyOf && keyOf[x] in nodeOf && Homes()[keyOf[x]] == n
      ensures |visited| == |SharingHome(Homes(), n)|
    {
      hide Valid, IsHomed, Homes, Order, SharingHome;
      visited := [];
      ghost var places: seq<nat> := [];
      var position := AdvanceToMatch(n, 0);
      while position != |iteration|
        invariant position <= |iteration| && |places| == |visited|
        invariant position < |iteration| ==> IsHomed(iteration[position], n)
        invariant forall i :: 0 <= i < |places| ==>
          places[i] < position && visited[i] == iteration[places[i]] && IsHomed(visited[i], n)
        invariant forall i, j :: 0 <= i < j < |places| ==> places[i] < places[j]
        invariant forall i :: 0 <= i < position && IsHomed(iteration[i], n) ==> iteration[i] in visited
        decreases |iteration| - position
      {
        visited, places := visited + [iteration[position]], places + [position];
        position := AdvanceToMatch(n, position + 1);
      }
      EveryNodeIsListed(n);
      WalkCounts(visited, n);
    }

    lemma HomedMeaning(node: nat, home: nat)
      requires Valid()
      ensures IsHomed(node, home) <==> node in keyOf && keyOf[node] in nodeOf && Homes()[keyOf[node]] == home
    {
      hide Listed, Stored, Good, Partitioned, Constructed, Sized, ShiftRight;
    }

    /** The nodes with a home are as many as the keys with it. */
    lemma WalkCounts(visited: seq<nat>, n: nat)
      requires Valid() && forall i, j :: 0 <= i < j < |visited| ==> visited[i] != visited[j]
      requires forall x :: x in visited <==> IsHomed(x, n)
      ensures forall x :: x in visited <==> x in keyOf && keyOf[x] in nodeOf && Homes()[keyOf[x]] == n
      ensures |visited| == |SharingHome(Homes(), n)|
    {
      hide Listed, Stored, Good, Partitioned, Constructed, Sized, ShiftRight;
      forall x ensures x in visited <==> x in keyOf && keyOf[x] in nodeOf && Homes()[keyOf[x]] == n {
        HomedMeaning(x, n);
      }
      var keys := KeyOrder(visited, keyOf);
      forall k | k in SharingHome(Homes(), n) ensures k in keys {
        var i :| 0 <= i < |visited| && visited[i] == nodeOf[k];
        assert keys[i] == k;
      }
      forall i, j | 0 <= i < j < |keys| ensures keys[i] != keys[j] {
        assert nodeOf[keys[i]] == visited[i] && nodeOf[keys[j]] == visited[j];
      }
      ListsOnceCount(keys, SharingHome(Homes(), n));
    }

    lemma EveryNodeIsListed(n: nat)
      requires Valid()
      ensures forall i, j :: 0 <= i < j < |iteration| ==> iteration[i] != iteration[j]
      ensures forall x :: IsHomed(x, n) ==> x in iteration
    {
      forall i, j | 0 <= i < j < |iteration| ensures iteration[i] != iteration[j] {
        IsListed(i);
        IsListed(j);
      }
      forall x | IsHomed(x, n) ensures x in iteration {
        NodeOfKey(x);
      }
    }

    // ---- iteration order ---------------------------------------------------

    /** The keys in iteration order. */
    ghost function Order(): (order: seq<K>)
      requires Valid()
      reads this, buckets
      ensures |order| == |iteration|
    {
      KeyOrder(iteration, keyOf)
    }

    lemma OrderListsKeys()
      requires Valid()
      ensures ListsOnce(Order(), Contents().Keys)
    {
      hide Partitioned, Constructed, Good, Sized;
      KeyOrderLists(iteration, arena, keyOf, nodeOf);
      DenotedKeys(arena, keyOf, nodeOf);
    }

    lemma OrderAt(i: nat)
      requires Valid() && i < |iteration|
      ensures iteration[i] in keyOf && Order()[i] == keyOf[iteration[i]] && iteration[i] != NULL_INDEX
      ensures iteration[i] < |arena| && arena[iteration[i]].aux == i
    {
      IsListed(i);
      NodeIsBelow(keyOf[iteration[i]]);
    }

    /** Erasing an element swaps its key out of the order. */
    lemma OrderAfterErasing(node: nat)
      requires Valid() && node in keyOf
      ensures node < |arena| && arena[node].aux < |iteration|
      ensures var position := arena[node].aux;
        var rest := SwapErased(iteration, position);
        && (forall i :: 0 <= i < |rest| ==> rest[i] in keyOf - {node})
        && KeyOrder(rest, keyOf - {node}) == SwapErased(Order(), position)
    {
      hide Partitioned, Constructed, Good, Sized, Stored;
      KeyOrderSwaps(iteration, arena, keyOf, node);
    }

    /** An added key goes to the end of the order. */
    twostate lemma OrderAfterAdding(key: K)
      requires old(Valid()) && Valid() && key in nodeOf
      requires nodeOf == if key in old(nodeOf) then old(nodeOf) else old(nodeOf)[key := nodeOf[key]]
      requires iteration == if key in old(nodeOf) then old(iteration) else old(iteration) + [nodeOf[key]]
      ensures Order() == if key in old(nodeOf) then old(Order()) else old(Order()) + [key]
    {
      hide Partitioned, Constructed, Good, Sized, Stored, Denoted;
      if key in old(nodeOf) {
        SameKeyOrder(iteration, old(keyOf), keyOf, nodeOf);
      } else {
        KeyOrderGrows(old(iteration), old(keyOf), old(nodeOf), keyOf, nodeOf, nodeOf[key], key);
      }
    }

    lemma NothingToRemove(key: K)
      requires Valid()
      ensures key !in nodeOf ==>
        SwappedOut(Order(), key) == Order() && nodeOf - {key} == nodeOf && Contents() - {key} == Contents()
    {
      hide Valid, Denoted;
      KeysHaveNodes();
      OrderListsKeys();
    }

    /** An erased key is swapped out of the order. */
    twostate lemma OrderAfterRemoving(node: nat)
      requires old(Valid()) && Valid()
      requires Removes(node)
      ensures old(keyOf)[node] in old(Order()) && Order() == SwappedOut(old(Order()), old(keyOf)[node])
    {
      hide Partitioned, Constructed, Good, Sized, Stored, Denoted;
      KeyOrderSwaps(old(iteration), old(arena), old(keyOf), node);
      KeyOrderLists(old(iteration), old(arena), old(keyOf), old(nodeOf));
      OnlyAt(old(Order()), old(nodeOf).Keys, old(arena)[node].aux);
    }

    /** The entries and their order. */
    ghost function Whole(): Entries<K, V>
      requires Valid()
      reads this, buckets
    {
      Entries(Contents(), Order())
    }

    /** The index table as a value with its bookkeeping. */
    ghost function Snapshot(): Table
      reads `hash, `buckets, `bucketShift, `keyOf, `slots, `gap, buckets
    {
      Table(buckets[..], Tags(keyOf), slots, gap)
    }

    /** Whatever happened in between, the words depend on the keys and the bucket count only. */
    twostate lemma WordsDependOnKeys()
      requires old(Valid()) && Valid() && bucketCount == old(bucketCount) && hash == old(hash)
      requires Contents().Keys == old(Contents()).Keys
      ensures forall p :: 0 <= p < bucketCount ==> buckets[..][p].word == old(buckets[..])[p].word
    {
      hide Listed, Stored, Good, Partitioned, Constructed, Inverse, LoadCapacity, TableSize, TagsOf, Denoted;
      var before, after := old(Snapshot()), Snapshot();
      DenotedKeys(arena, keyOf, nodeOf);
      DenotedKeys(old(arena), old(keyOf), old(nodeOf));
      if bucketCount != 0 {
        SameKeysSameWords(hash, bucketShift, before, after, old(keyOf), old(nodeOf), keyOf, nodeOf);
      }
    }
  }

  /** Two tables built in any two ways from the same keys have identical words. */
  lemma HistoryIndependence<K, V>(left: HashTable<K, V>, right: HashTable<K, V>)
    requires left.Valid() && right.Valid() && left.bucketCount == right.bucketCount
    requires left.Contents().Keys == right.Contents().Keys
    requires left.hash == right.hash
    ensures forall p :: 0 <= p < left.bucketCount ==> left.buckets[..][p].word == right.buckets[..][p].word
  {
    hide Listed, Stored, Good, Partitioned, Constructed, Inverse, LoadCapacity, TableSize, TagsOf, Denoted;
    DenotedKeys(left.arena, left.keyOf, left.nodeOf);
    DenotedKeys(right.arena, right.keyOf, right.nodeOf);
    if left.bucketCount != 0 {
      SameKeysSameWords(left.hash, left.bucketShift, left.Snapshot(), right.Snapshot(),
                        left.keyOf, left.nodeOf, right.keyOf, right.nodeOf);
    }
  }
}
