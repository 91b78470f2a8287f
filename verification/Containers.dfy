/** The map adapter over the shared engine. */
module UnorderedMap {
  import opened Layout
  import opened Sizing
  import opened Maps
  import opened Engine

  datatype Lookup<V> = OutOfRange | Value(value: V)

  /** `at(key)`. */
  method At<K(==), V>(t: HashTable<K, V>, key: K) returns (result: Lookup<V>)
    requires t.Valid()
    ensures result == if key in t.Contents() then Value(t.Contents()[key]) else OutOfRange
  {
    hide HashTable.Valid, HashTable.Contents, HashTable.Order;
    t.KeysHaveNodes();
    var it := t.Find(key);
    if it == NULL_INDEX {
      return OutOfRange;
    }
    var k, value := t.Get(it);
    result := Value(value);
  }

  /** `operator[]`: the value of the key, after adding a default one if it was absent. */
  method Subscript<K(==), V>(t: HashTable<K, V>, key: K, default: V) returns (node: nat)
    requires t.Valid() && t.HasRoomFor(key)
    modifies t, t.buckets
    ensures t.Valid() && (if t.bucketCount == old(t.bucketCount) then t.buckets == old(t.buckets) else fresh(t.buckets))
    ensures t.Contents() == map[key := default] + old(t.Contents())
    ensures t.AddsIfAbsent(key, default, node, key !in old(t.nodeOf))
  {
    hide HashTable.Valid, HashTable.Contents, HashTable.Order;
    t.KeysHaveNodes();
    var inserted;
    node, inserted := t.TryEmplaceImpl(key, default);
  }

  /** `map[key] = value`. */
  method Store<K(==), V>(t: HashTable<K, V>, key: K, value: V, default: V) returns (node: nat)
    requires t.Valid() && t.HasRoomFor(key)
    modifies t, t.buckets
    ensures t.Valid() && (if t.bucketCount == old(t.bucketCount) then t.buckets == old(t.buckets) else fresh(t.buckets))
    ensures t.Contents() == old(t.Contents())[key := value]
    ensures key in t.nodeOf && node == t.nodeOf[key]
    ensures t.nodeOf == if key in old(t.nodeOf) then old(t.nodeOf) else old(t.nodeOf)[key := node]
    ensures t.iteration == if key in old(t.nodeOf) then old(t.iteration) else old(t.iteration) + [node]
    ensures t.maxLoadFactor == old(t.maxLoadFactor) && t.hash == old(t.hash) && t.CapacityFollows()
    ensures t.bucketCount == if key in old(t.nodeOf) then old(t.bucketCount)
                             else GrownCount(old(t.bucketCount), old(t.maxLoadCapacity), |old(t.iteration)|)
  {
    hide HashTable.Valid, HashTable.Contents, HashTable.Order;
    node := Subscript(t, key, default);
    t.KeyOfNode(key);
    t.AssignValue(node, value);
  }

  /** `operator==`: equal sizes, and every entry of the left side is one of the right. */
  method Equals<K(==), V(==)>(left: HashTable<K, V>, right: HashTable<K, V>) returns (equal: bool)
    requires left.Valid() && right.Valid()
    ensures equal <==> left.Contents() == right.Contents()
  {
    hide HashTable.Valid, HashTable.Contents, HashTable.Order;
    left.SizeIsCardinality();
    right.SizeIsCardinality();
    left.OrderListsKeys();
    if |left.iteration| != |right.iteration| {
      return false;
    }
    var i := 0;
    while i < |left.iteration|
      invariant 0 <= i <= |left.iteration|
      invariant forall j :: 0 <= j < i ==>
        var k := left.Order()[j];
        k in left.Contents() && k in right.Contents() && right.Contents()[k] == left.Contents()[k]
    {
      left.OrderAt(i);
      var key, mapped := left.Get(left.iteration[i]);
      var it := right.Find(key);
      if it == NULL_INDEX {
        return false;
      }
      var k, other := right.Get(it);
      if other != mapped {
        return false;
      }
      i := i + 1;
    }
    SameSizeInclusion(left.Contents(), right.Contents());
    equal := true;
  }

  /** `erase_if`: judges every element exactly once and erases the doomed ones. */
  method EraseIf<K(==, !new), V>(t: HashTable<K, V>, doomed: (K, V) -> bool) returns (erased: nat, ghost judged: seq<K>)
    requires t.Valid()
    modifies t`arena, t`iteration, t`freeHead, t`free, t`keyOf, t`nodeOf, t`slots, t.buckets
    ensures t.Valid()
    ensures t.Contents() == map k | k in old(t.Contents()) && !doomed(k, old(t.Contents())[k]) :: old(t.Contents())[k]
    ensures erased == |old(t.Contents())| - |t.Contents()|
    ensures ListsOnce(judged, old(t.Contents()).Keys)
  {
    hide HashTable.Valid, HashTable.Contents, HashTable.Order, Sweeping, SwapErased, ListsOnce;
    erased, judged := 0, [];
    ghost var all, at := t.Contents(), 0;
    t.OrderListsKeys();
    SweepStarts(all, t.Order(), doomed);
    var it := if |t.iteration| == 0 then NULL_INDEX else t.iteration[0];
    while it != NULL_INDEX
      invariant t.Valid() && it == t.NodeAt(at) && at <= |t.iteration|
      invariant Sweeping(all, t.Contents(), t.Order(), at, judged, doomed)
      invariant erased + |t.Order()| == |all|
      decreases |t.iteration| - at
    {
      t.OrderAt(at);
      var key, value := t.Get(it);
      judged := judged + [key];
      if doomed(key, value) {
        SweepErases(all, t.Contents(), t.Order(), at, judged[..|judged| - 1], doomed);
        it := t.EraseAt(it);
        erased := erased + 1;
      } else {
        SweepKeeps(all, t.Contents(), t.Order(), at, judged[..|judged| - 1], doomed);
        it := t.Advance(it);
        at := at + 1;
      }
    }
    if at < |t.iteration| {
      t.OrderAt(at);
    }
    SweepEnds(all, t.Contents(), t.Order(), at, judged, doomed);
  }
}

/** The set adapter: the same engine with nothing mapped to. */
module UnorderedSet {
  import UnorderedMap
  import opened Maps
  import opened Engine

  /** `operator==`: equal sizes, and the right side contains every key of the left. */
  method Equals<K(==)>(left: HashTable<K, ()>, right: HashTable<K, ()>) returns (equal: bool)
    requires left.Valid() && right.Valid()
    ensures equal <==> left.Contents().Keys == right.Contents().Keys
  {
    hide HashTable.Valid, HashTable.Contents, HashTable.Order;
    left.SizeIsCardinality();
    right.SizeIsCardinality();
    left.OrderListsKeys();
    assert |left.Contents().Keys| == |left.iteration| && |right.Contents().Keys| == |right.iteration|;
    if |left.iteration| != |right.iteration| {
      return false;
    }
    var i := 0;
    while i < |left.iteration|
      invariant 0 <= i <= |left.iteration|
      invariant forall j :: 0 <= j < i ==> left.Order()[j] in right.Contents()
    {
      left.OrderAt(i);
      var key, nothing := left.Get(left.iteration[i]);
      var found := right.Contains(key);
      if !found {
        return false;
      }
      i := i + 1;
    }
    forall k | k in left.Contents() ensures k in right.Contents() {
      assert k in left.Order();
    }
    SameSizeSubset(left.Contents().Keys, right.Contents().Keys);
    equal := true;
  }

  /** `erase_if`: the same sweep, judging keys only. */
  method EraseIf<K(==, !new)>(s: HashTable<K, ()>, doomed: K -> bool) returns (erased: nat, ghost judged: seq<K>)
    requires s.Valid()
    modifies s`arena, s`iteration, s`freeHead, s`free, s`keyOf, s`nodeOf, s`slots, s.buckets
    ensures s.Valid()
    ensures s.Contents().Keys == set k | k in old(s.Contents()).Keys && !doomed(k)
    ensures erased == |old(s.Contents())| - |s.Contents()|
    ensures ListsOnce(judged, old(s.Contents()).Keys)
  {
    hide HashTable.Valid, HashTable.Contents, HashTable.Order, Sweeping, SwapErased;
    erased, judged := UnorderedMap.EraseIf(s, (k, nothing) => doomed(k));
  }
}
