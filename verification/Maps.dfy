/** Facts about finite maps that the operations on whole tables rely on. */
module Maps {

  /** The part of `m` whose keys are in `keys`. */
  ghost function Restricted<K, V>(m: map<K, V>, keys: set<K>): map<K, V> {
    map k | k in m && k in keys :: m[k]
  }

  /** `after` maps every key of `before` to the same value. */
  ghost predicate Extends<K, V>(before: map<K, V>, after: map<K, V>) {
    forall k :: k in before ==> k in after && after[k] == before[k]
  }

  /** How many keys two maps have between them. */
  ghost function UnionSize<K, V>(left: map<K, V>, right: map<K, V>): nat {
    |left.Keys + right.Keys|
  }

  lemma UnionIsSize<K, V>(left: map<K, V>, right: map<K, V>)
    ensures UnionSize(left, right) == |left + right|
  {
    assert (left + right).Keys == left.Keys + right.Keys;
  }

  lemma UnionWithNothing<K, V>(m: map<K, V>)
    ensures UnionSize(m, map[]) == |m| && m + map[] == m
  {
    var nothing: map<K, V> := map[];
    assert m.Keys + nothing.Keys == m.Keys;
  }

  lemma ExtendsItself<K, V>(m: map<K, V>)
    ensures Extends(m, m)
  {
  }

  lemma ExtendsChain<K, V>(first: map<K, V>, second: map<K, V>, third: map<K, V>)
    requires Extends(first, second) && Extends(second, third)
    ensures Extends(first, third)
  {
  }

  /** The nodes from position `from` on still carry the keys they were listed with. */
  ghost predicate Pending<K>(keyOf: map<nat, K>, nodes: seq<nat>, keys: seq<K>, from: nat) {
    |nodes| == |keys| && forall j :: from <= j < |nodes| ==> nodes[j] in keyOf && keyOf[nodes[j]] == keys[j]
  }

  ghost function FirstKeys<K>(keys: seq<K>, count: nat): set<K>
    requires count <= |keys|
  {
    set k | k in keys[..count]
  }

  lemma NoFirstKeys<K>(keys: seq<K>)
    ensures FirstKeys(keys, 0) == {}
  {
  }

  lemma PendingNow<K>(keyOf: map<nat, K>, nodes: seq<nat>, keys: seq<K>, from: nat)
    requires Pending(keyOf, nodes, keys, from) && from < |nodes|
    ensures |keys| == |nodes| && nodes[from] in keyOf && keyOf[nodes[from]] == keys[from]
  {
  }

  lemma NextKey<K>(keys: seq<K>, count: nat)
    requires count < |keys| && forall i, j :: 0 <= i < j < |keys| ==> keys[i] != keys[j]
    ensures keys[count] !in FirstKeys(keys, count)
    ensures FirstKeys(keys, count + 1) == FirstKeys(keys, count) + {keys[count]}
  {
    assert keys[..count + 1] == keys[..count] + [keys[count]];
  }

  /** `order` lists the members of `keys`, each once. */
  ghost predicate ListsOnce<K>(order: seq<K>, keys: set<K>) {
    && (forall i :: 0 <= i < |order| ==> order[i] in keys)
    && (forall k :: k in keys ==> k in order)
    && (forall i, j :: 0 <= i < j < |order| ==> order[i] != order[j])
  }

  lemma {:induction false} ListsOnceCount<K>(order: seq<K>, keys: set<K>)
    requires ListsOnce(order, keys)
    ensures |order| == |keys|
    decreases |order|
  {
    if order == [] {
      assert keys == {};
    } else {
      var last := |order| - 1;
      forall k | k in keys - {order[last]} ensures k in order[..last] {
        var i :| 0 <= i < |order| && order[i] == k;
        assert order[..last][i] == k;
      }
      ListsOnceCount(order[..last], keys - {order[last]});
    }
  }

  lemma SliceIsPending<K>(keyOf: map<nat, K>, nodes: seq<nat>, order: seq<K>, members: set<K>, from: nat, to: nat)
    requires Pending(keyOf, nodes, order, 0) && ListsOnce(order, members) && from <= to <= |nodes|
    ensures Pending(keyOf, nodes[from..to], order[from..to], 0)
    ensures forall i, j :: 0 <= i < j < to - from ==> order[from..to][i] != order[from..to][j]
  {
  }

  lemma PendingAfter<K>(keyOf: map<nat, K>, nodes: seq<nat>, keys: seq<K>, from: nat)
    requires Pending(keyOf, nodes, keys, from) && from < |nodes|
    requires forall i, j :: 0 <= i < j < |keys| ==> keys[i] != keys[j]
    ensures Pending(keyOf, nodes, keys, from + 1) && Pending(keyOf - {nodes[from]}, nodes, keys, from + 1)
  {
    forall j | from < j < |nodes| ensures nodes[j] != nodes[from] {
      assert keys[j] != keys[from];
    }
  }

  lemma AllKeys<K>(keys: seq<K>, members: set<K>)
    requires (forall k :: k in members ==> k in keys) && (forall i :: 0 <= i < |keys| ==> keys[i] in members)
    ensures FirstKeys(keys, |keys|) == members
  {
    assert keys[..|keys|] == keys;
  }

  /** The entries of the first keys, one at a time. */
  lemma NextRestricted<K, V>(all: map<K, V>, keys: seq<K>, count: nat)
    requires ListsOnce(keys, all.Keys) && count < |keys|
    ensures keys[count] in all && keys[count] !in Restricted(all, FirstKeys(keys, count))
    ensures keys[..count + 1] == keys[..count] + [keys[count]]
    ensures Restricted(all, FirstKeys(keys, count + 1))
         == map[keys[count] := all[keys[count]]] + Restricted(all, FirstKeys(keys, count))
  {
    NextKey(keys, count);
  }

  lemma RestrictedEnds<K, V>(all: map<K, V>, keys: seq<K>)
    requires ListsOnce(keys, all.Keys)
    ensures Restricted(all, FirstKeys(keys, 0)) == map[]
    ensures Restricted(all, FirstKeys(keys, |keys|)) == all
  {
    AllKeys(keys, all.Keys);
  }

  // ---- swapping out --------------------------------------------------------

  /** The list after its entry at a position was overwritten by the last one. */
  function SwapErased<T>(list: seq<T>, position: nat): (rest: seq<T>)
    requires position < |list|
    ensures |rest| == |list| - 1
  {
    list[position := list[|list| - 1]][..|list| - 1]
  }

  ghost function IndexOf<T>(list: seq<T>, item: T): (index: nat)
    requires item in list
    ensures index < |list| && list[index] == item
  {
    if list[0] == item then 0 else 1 + IndexOf(list[1..], item)
  }

  /** The list without this item, whose place the last item takes. */
  ghost function SwappedOut<T>(list: seq<T>, item: T): seq<T> {
    if item in list then SwapErased(list, IndexOf(list, item)) else list
  }

  lemma OnlyAt<T>(list: seq<T>, members: set<T>, index: nat)
    requires ListsOnce(list, members) && index < |list|
    ensures SwappedOut(list, list[index]) == SwapErased(list, index)
  {
    var first := IndexOf(list, list[index]);
  }

  lemma LastSwappedOut<T>(list: seq<T>, item: T)
    requires item !in list
    ensures SwappedOut(list + [item], item) == list
  {
    var index := IndexOf(list + [item], item);
    assert forall i :: 0 <= i < |list| ==> (list + [item])[i] in list;
  }

  lemma AddedAndRemoved<K, V>(m: map<K, V>, key: K, value: V)
    requires key !in m
    ensures m[key := value] - {key} == m
  {
  }

  /** The list after each of these items in turn was swapped out. */
  ghost function AllSwappedOut<T>(list: seq<T>, items: seq<T>): seq<T> {
    if items == [] then list
    else SwappedOut(AllSwappedOut(list, items[..|items| - 1]), items[|items| - 1])
  }

  lemma NextSwappedOut<T>(list: seq<T>, items: seq<T>, count: nat)
    requires count < |items|
    ensures AllSwappedOut(list, items[..count + 1]) == SwappedOut(AllSwappedOut(list, items[..count]), items[count])
  {
    assert items[..count + 1][..count] == items[..count];
  }

  // ---- merging -------------------------------------------------------------

  /** `destination` after taking over those entries of `source` among `done` whose keys it lacked. */
  ghost function MergedInto<K, V>(destination: map<K, V>, source: map<K, V>, done: set<K>): map<K, V> {
    Restricted(source, done) + destination
  }

  /** What is then left of `source`. */
  ghost function LeftBehind<K, V>(destination: map<K, V>, source: map<K, V>, done: set<K>): map<K, V> {
    source - (done - destination.Keys)
  }

  lemma MergeSkips<K, V>(destination: map<K, V>, source: map<K, V>, done: set<K>, key: K)
    requires key in source && key in destination
    ensures MergedInto(destination, source, done + {key}) == MergedInto(destination, source, done)
    ensures LeftBehind(destination, source, done + {key}) == LeftBehind(destination, source, done)
  {
    assert done + {key} - destination.Keys == done - destination.Keys;
  }

  lemma MergeTakes<K, V>(destination: map<K, V>, source: map<K, V>, done: set<K>, key: K)
    requires key in source && key !in destination
    ensures MergedInto(destination, source, done + {key}) == MergedInto(destination, source, done)[key := source[key]]
    ensures LeftBehind(destination, source, done + {key}) == LeftBehind(destination, source, done) - {key}
  {
    assert done + {key} - destination.Keys == (done - destination.Keys) + {key};
  }

  /** A key not yet handled is in the destination exactly when it was there before. */
  lemma MergePending<K, V>(destination: map<K, V>, source: map<K, V>, done: set<K>, key: K)
    requires key in source && key !in done
    ensures key in MergedInto(destination, source, done) <==> key in destination
    ensures key in LeftBehind(destination, source, done)
    ensures LeftBehind(destination, source, done)[key] == source[key]
  {
  }

  lemma MergeEnds<K, V>(destination: map<K, V>, source: map<K, V>)
    ensures MergedInto(destination, source, source.Keys) == source + destination
    ensures LeftBehind(destination, source, source.Keys) == Restricted(source, destination.Keys)
  {
  }

  lemma MergeStarts<K, V>(destination: map<K, V>, source: map<K, V>)
    ensures MergedInto(destination, source, {}) == destination
    ensures LeftBehind(destination, source, {}) == source
  {
  }

  /** The entries of a container, with their keys in iteration order. */
  datatype Entries<K, V> = Entries(values: map<K, V>, order: seq<K>)

  /** Those of the keys that are not among `members`, in order. */
  ghost function Lacking<K>(keys: seq<K>, members: set<K>): seq<K> {
    if keys == [] then []
    else
      var last := keys[|keys| - 1];
      var before := Lacking(keys[..|keys| - 1], members);
      if last in members then before else before + [last]
  }

  lemma NextLacking<K>(keys: seq<K>, members: set<K>, count: nat)
    requires count < |keys|
    ensures Lacking(keys[..count + 1], members)
         == var before := Lacking(keys[..count], members);
            if keys[count] in members then before else before + [keys[count]]
  {
    assert keys[..count + 1][..count] == keys[..count];
  }

  /** A key that is lacking comes after those lacking before it. */
  lemma {:induction false} LackingAt<K>(keys: seq<K>, members: set<K>, position: nat)
    requires position < |keys| && keys[position] !in members
    ensures Lacking(keys[..position], members) + [keys[position]] <= Lacking(keys, members)
    decreases |keys|
  {
    var rest := keys[..|keys| - 1];
    if position < |rest| {
      LackingAt(rest, members, position);
      assert rest[..position] == keys[..position];
    } else {
      assert rest == keys[..position];
    }
  }

  lemma {:induction false} LackingIsAbsent<K>(keys: seq<K>, members: set<K>, key: K)
    ensures key in Lacking(keys, members) <==> key in keys && key !in members
  {
    if keys != [] {
      var rest := keys[..|keys| - 1];
      assert keys == rest + [keys[|keys| - 1]];
      LackingIsAbsent(rest, members, key);
    }
  }

  /** Items are swapped out from the first to the last. */
  lemma OneMoreSwappedOut<T>(list: seq<T>, items: seq<T>, item: T)
    ensures AllSwappedOut(list, []) == list
    ensures AllSwappedOut(list, items + [item]) == SwappedOut(AllSwappedOut(list, items), item)
  {
    assert (items + [item])[..|items|] == items;
  }

  /** `destination` and `source` after the first `count` keys of `theirs` were offered to `mine`. */
  ghost predicate MergedUpTo<K, V>(mine: Entries<K, V>, theirs: Entries<K, V>, count: nat,
                                   destination: Entries<K, V>, source: Entries<K, V>) {
    && count <= |theirs.order|
    && destination.values == MergedInto(mine.values, theirs.values, FirstKeys(theirs.order, count))
    && source.values == LeftBehind(mine.values, theirs.values, FirstKeys(theirs.order, count))
    && var taken := Lacking(theirs.order[..count], mine.values.Keys);
    && destination.order == mine.order + taken
    && source.order == AllSwappedOut(theirs.order, taken)
  }

  lemma MergingStarts<K, V>(mine: Entries<K, V>, theirs: Entries<K, V>)
    ensures MergedUpTo(mine, theirs, 0, mine, theirs)
  {
    NoFirstKeys(theirs.order);
    MergeStarts(mine.values, theirs.values);
  }

  /** A key that the destination has is left where it is. */
  lemma MergingSkips<K, V>(mine: Entries<K, V>, theirs: Entries<K, V>, count: nat,
                           destination: Entries<K, V>, source: Entries<K, V>)
    requires MergedUpTo(mine, theirs, count, destination, source) && count < |theirs.order|
    requires ListsOnce(theirs.order, theirs.values.Keys) && theirs.order[count] in destination.values
    ensures MergedUpTo(mine, theirs, count + 1, destination, source)
  {
    hide MergedInto, LeftBehind, AllSwappedOut, FirstKeys;
    var key, done := theirs.order[count], FirstKeys(theirs.order, count);
    NextKey(theirs.order, count);
    MergePending(mine.values, theirs.values, done, key);
    MergeSkips(mine.values, theirs.values, done, key);
    NextLacking(theirs.order, mine.values.Keys, count);
  }

  /** A key that the destination lacks moves over, and there is room for it. */
  lemma MergingTakes<K, V>(mine: Entries<K, V>, theirs: Entries<K, V>, count: nat,
                           destination: Entries<K, V>, source: Entries<K, V>)
    requires MergedUpTo(mine, theirs, count, destination, source) && count < |theirs.order|
    requires ListsOnce(theirs.order, theirs.values.Keys) && theirs.order[count] !in destination.values
    ensures var key := theirs.order[count];
      && key in source.values
      && MergedUpTo(mine, theirs, count + 1,
                    Entries(destination.values[key := source.values[key]], destination.order + [key]),
                    Entries(source.values - {key}, SwappedOut(source.order, key)))
    ensures |destination.values| < UnionSize(theirs.values, mine.values)
  {
    hide MergedInto, LeftBehind, AllSwappedOut, SwappedOut, FirstKeys, Lacking, UnionSize;
    var key, done := theirs.order[count], FirstKeys(theirs.order, count);
    NextKey(theirs.order, count);
    MergePending(mine.values, theirs.values, done, key);
    MergeTakes(mine.values, theirs.values, done, key);
    MergeHasRoom(mine.values, theirs.values, done, key);
    NextLacking(theirs.order, mine.values.Keys, count);
    var taken := Lacking(theirs.order[..count], mine.values.Keys);
    OneMoreSwappedOut(theirs.order, taken, key);
    assert mine.order + taken + [key] == mine.order + (taken + [key]);
  }

  lemma MergeHasRoom<K, V>(destination: map<K, V>, source: map<K, V>, done: set<K>, key: K)
    requires key in source && key !in destination && key !in done
    ensures |MergedInto(destination, source, done)| < UnionSize(source, destination)
  {
    var now := MergedInto(destination, source, done);
    SubsetIsSmaller(now.Keys + {key}, source.Keys + destination.Keys);
  }

  lemma MergingEnds<K, V>(mine: Entries<K, V>, theirs: Entries<K, V>, destination: Entries<K, V>, source: Entries<K, V>)
    requires MergedUpTo(mine, theirs, |theirs.order|, destination, source)
    requires ListsOnce(theirs.order, theirs.values.Keys)
    ensures destination.values == theirs.values + mine.values
    ensures source.values == Restricted(theirs.values, mine.values.Keys)
    ensures |destination.values| + |source.values| == |mine.values| + |theirs.values|
    ensures destination.order == mine.order + Lacking(theirs.order, mine.values.Keys)
    ensures source.order == AllSwappedOut(theirs.order, Lacking(theirs.order, mine.values.Keys))
  {
    hide Lacking, AllSwappedOut;
    AllKeys(theirs.order, theirs.values.Keys);
    MergeEnds(mine.values, theirs.values);
    MergeConserves(mine.values, theirs.values);
    assert theirs.order[..|theirs.order|] == theirs.order;
  }

  /** Merging moves elements without creating or losing any. */
  lemma MergeConserves<K, V>(destination: map<K, V>, source: map<K, V>)
    ensures |source + destination| + |Restricted(source, destination.Keys)| == |destination| + |source|
  {
    var shared := Restricted(source, destination.Keys);
    assert shared.Keys == source.Keys * destination.Keys;
    assert (source + destination).Keys == source.Keys + destination.Keys;
    assert |source.Keys + destination.Keys| + |source.Keys * destination.Keys| == |source.Keys| + |destination.Keys|;
  }

  // ---- inclusion -----------------------------------------------------------

  /** A map of the same size that includes another is that map. */
  lemma SameSizeInclusion<K, V>(left: map<K, V>, right: map<K, V>)
    requires |left| == |right|
    requires forall k :: k in left ==> k in right && left[k] == right[k]
    ensures left == right
  {
    assert |left.Keys| == |right.Keys|;
    SameSizeSubset(left.Keys, right.Keys);
  }

  /** A set cannot include another of the same size without being that set. */
  lemma SameSizeSubset<T>(small: set<T>, large: set<T>)
    requires small <= large && |small| == |large|
    ensures small == large
  {
    if k :| k in large && k !in small {
      SubsetIsSmaller(small, large - {k});
      assert false;
    }
  }

  lemma SubsetIsSmaller<T>(small: set<T>, large: set<T>)
    requires small <= large
    ensures |small| <= |large|
  {
    assert large == small + (large - small);
  }

  // ---- listings ------------------------------------------------------------

  /** The map that a list of entries denotes when the first entry of a key counts. */
  ghost function Listing<K, V>(entries: seq<(K, V)>): map<K, V> {
    if entries == [] then map[]
    else
      var last := entries[|entries| - 1];
      map[last.0 := last.1] + Listing(entries[..|entries| - 1])
  }

  lemma ListingStarts<K, V>(before: map<K, V>)
    ensures Listing<K, V>([]) + before == before
  {
  }

  /** Adding an entry unless its key is present already. */
  lemma ListingGrows<K, V>(entries: seq<(K, V)>, count: nat, before: map<K, V>)
    requires count < |entries|
    ensures Listing(entries[..count + 1]) + before
         == map[entries[count].0 := entries[count].1] + (Listing(entries[..count]) + before)
  {
    assert entries[..count + 1][..count] == entries[..count];
  }

  /** Before a new key is added, there are fewer entries than in the end. */
  lemma ListingFits<K, V>(entries: seq<(K, V)>, count: nat, before: map<K, V>, now: map<K, V>)
    requires count < |entries| && now == Listing(entries[..count]) + before
    ensures entries[count].0 !in now ==> |now| < UnionSize(Listing(entries), before)
  {
    hide Listing;
    ListingGrows(entries, count, before);
    PrefixIsListed(entries, count + 1);
    var next := Listing(entries[..count + 1]) + before;
    assert entries[count].0 in next && now.Keys <= next.Keys;
    OneMoreKey(entries[count].0, now.Keys, Listing(entries).Keys + before.Keys);
  }

  lemma OneMoreKey<K>(key: K, now: set<K>, whole: set<K>)
    requires now + {key} <= whole
    ensures key !in now ==> |now| < |whole|
  {
    SubsetIsSmaller(now + {key}, whole);
  }

  lemma {:induction false} PrefixIsListed<K, V>(entries: seq<(K, V)>, count: nat)
    requires count <= |entries|
    ensures Listing(entries[..count]).Keys <= Listing(entries).Keys
    decreases |entries|
  {
    if count == |entries| {
      assert entries[..count] == entries;
    } else {
      var rest := entries[..|entries| - 1];
      PrefixIsListed(rest, count);
      assert rest[..count] == entries[..count];
    }
  }

  /** A listed key has the value of its first entry. */
  lemma {:induction false} FirstEntryCounts<K, V>(entries: seq<(K, V)>, first: nat)
    requires first < |entries| && forall i :: 0 <= i < first ==> entries[i].0 != entries[first].0
    ensures entries[first].0 in Listing(entries) && Listing(entries)[entries[first].0] == entries[first].1
    decreases |entries|
  {
    var rest := entries[..|entries| - 1];
    if first < |rest| {
      FirstEntryCounts(rest, first);
    } else {
      OnlyEntryKeysAreListed(rest, entries[first].0);
    }
  }

  lemma {:induction false} OnlyEntryKeysAreListed<K, V>(entries: seq<(K, V)>, key: K)
    ensures key in Listing(entries) <==> exists i :: 0 <= i < |entries| && entries[i].0 == key
  {
    if entries != [] {
      var rest := entries[..|entries| - 1];
      OnlyEntryKeysAreListed(rest, key);
      if key in Listing(rest) {
        var i :| 0 <= i < |rest| && rest[i].0 == key;
        assert entries[i].0 == key;
      }
      if i :| 0 <= i < |entries| && entries[i].0 == key {
        assert i < |rest| ==> rest[i].0 == key;
      }
    }
  }

  /** The keys of the entries that are not among `members`, each where it first occurs. */
  ghost function Newcomers<K, V>(entries: seq<(K, V)>, members: set<K>): seq<K> {
    if entries == [] then []
    else
      var key := entries[|entries| - 1].0;
      var before := Newcomers(entries[..|entries| - 1], members);
      if key in members || key in before then before else before + [key]
  }

  lemma NoNewcomers<K, V>(members: set<K>)
    ensures Newcomers<K, V>([], members) == []
  {
  }

  lemma {:induction false} NewcomersAreListed<K, V>(entries: seq<(K, V)>, members: set<K>, key: K)
    ensures key in Newcomers(entries, members) <==> key in Listing(entries) && key !in members
  {
    if entries != [] {
      NewcomersAreListed(entries[..|entries| - 1], members, key);
    }
  }

  lemma NextNewcomer<K, V>(order: seq<K>, entries: seq<(K, V)>, before: map<K, V>, count: nat)
    requires count < |entries|
    ensures order + Newcomers(entries[..count + 1], before.Keys)
         == var known := order + Newcomers(entries[..count], before.Keys);
            if entries[count].0 in Listing(entries[..count]) + before then known else known + [entries[count].0]
  {
    assert entries[..count + 1][..count] == entries[..count];
    NewcomersAreListed(entries[..count], before.Keys, entries[count].0);
    var known := Newcomers(entries[..count], before.Keys);
    assert order + (known + [entries[count].0]) == order + known + [entries[count].0];
  }

  /** A key that is new at a position comes after the newcomers before that position. */
  lemma {:induction false} NewcomerAt<K, V>(entries: seq<(K, V)>, members: set<K>, position: nat)
    requires position < |entries| && entries[position].0 !in members
    requires forall i :: 0 <= i < position ==> entries[i].0 != entries[position].0
    ensures Newcomers(entries[..position], members) + [entries[position].0] <= Newcomers(entries, members)
    decreases |entries|
  {
    var rest := entries[..|entries| - 1];
    if position < |rest| {
      NewcomerAt(rest, members, position);
      assert rest[..position] == entries[..position];
    } else {
      assert rest == entries[..position];
      NewcomersAreListed(rest, members, entries[position].0);
      OnlyEntryKeysAreListed(rest, entries[position].0);
    }
  }

  // ---- partition into buckets ----------------------------------------------

  ghost function SharingHome<K>(homes: map<K, nat>, home: nat): set<K> {
    set k | k in homes && homes[k] == home
  }

  /** The sizes of the first `count` buckets, added up. */
  ghost function SumOfSizes<K>(homes: map<K, nat>, count: nat): nat {
    if count == 0 then 0 else SumOfSizes(homes, count - 1) + |SharingHome(homes, count - 1)|
  }

  lemma SizesMean<K>(homes: map<K, nat>, home: nat)
    ensures forall k :: k in SharingHome(homes, home) <==> k in homes && homes[k] == home
    ensures SumOfSizes(homes, 0) == 0
    ensures SumOfSizes(homes, home + 1) == SumOfSizes(homes, home) + |SharingHome(homes, home)|
  {
  }

  lemma {:induction false} SizesAddUp<K>(homes: map<K, nat>, count: nat)
    ensures SumOfSizes(homes, count) == |set k | k in homes && homes[k] < count|
  {
    if count == 0 {
      assert (set k | k in homes && homes[k] < count) == {};
    } else {
      SizesAddUp(homes, count - 1);
      assert (set k | k in homes && homes[k] < count)
          == (set k | k in homes && homes[k] < count - 1) + SharingHome(homes, count - 1);
    }
  }

  /** When every home is below `count`, the buckets' sizes add up to the number of keys. */
  lemma BucketsPartition<K>(homes: map<K, nat>, count: nat)
    requires forall k :: k in homes ==> homes[k] < count
    ensures SumOfSizes(homes, count) == |homes|
  {
    SizesAddUp(homes, count);
    assert (set k | k in homes && homes[k] < count) == homes.Keys;
  }

  /** How many of the first `count` keys have this home. */
  lemma NextSharing<K>(homes: map<K, nat>, keys: seq<K>, home: nat, count: nat)
    requires count < |keys| && (forall i :: 0 <= i < |keys| ==> keys[i] in homes)
    requires forall i, j :: 0 <= i < j < |keys| ==> keys[i] != keys[j]
    ensures |SharingHome(homes, home) * FirstKeys(keys, count + 1)|
         == |SharingHome(homes, home) * FirstKeys(keys, count)| + (if homes[keys[count]] == home then 1 else 0)
  {
    NextKey(keys, count);
    var before := SharingHome(homes, home) * FirstKeys(keys, count);
    var after := SharingHome(homes, home) * FirstKeys(keys, count + 1);
    if homes[keys[count]] == home {
      assert after == before + {keys[count]};
    } else {
      assert after == before;
    }
  }

  lemma AllSharing<K>(homes: map<K, nat>, keys: seq<K>, home: nat)
    requires ListsOnce(keys, homes.Keys)
    ensures SharingHome(homes, home) * FirstKeys(keys, |keys|) == SharingHome(homes, home)
    ensures SharingHome(homes, home) * FirstKeys(keys, 0) == {}
  {
    AllKeys(keys, homes.Keys);
  }

  // ---- sweeping ------------------------------------------------------------

  /**
   A sweep over the entries of `all` that has arrived at position `at` of the
   order of what is left, `now`.  The keys in `judged` have been judged, in
   that order; those for which `doomed` held are gone.
   */
  ghost predicate Sweeping<K(!new), V>(all: map<K, V>, now: map<K, V>, order: seq<K>, at: nat, judged: seq<K>,
                                       doomed: (K, V) -> bool) {
    && ListsOnce(order, now.Keys) && at <= |order|
    && Extends(now, all)
    && (forall i, j :: 0 <= i < j < |judged| ==> judged[i] != judged[j])
    && (forall k :: k in judged ==> k in all && (k in now <==> !doomed(k, all[k])))
    && (forall k :: k in all && k !in now ==> k in judged)
    && (forall i :: 0 <= i < at ==> order[i] in judged)
    && (forall i :: at <= i < |order| ==> order[i] !in judged)
  }

  lemma SweepStarts<K(!new), V>(all: map<K, V>, order: seq<K>, doomed: (K, V) -> bool)
    requires ListsOnce(order, all.Keys)
    ensures Sweeping(all, all, order, 0, [], doomed) && |order| == |all|
  {
    ListsOnceCount(order, all.Keys);
  }

  lemma SweepKeeps<K(!new), V>(all: map<K, V>, now: map<K, V>, order: seq<K>, at: nat, judged: seq<K>,
                               doomed: (K, V) -> bool)
    requires Sweeping(all, now, order, at, judged, doomed) && at < |order|
    requires !doomed(order[at], now[order[at]])
    ensures Sweeping(all, now, order, at + 1, judged + [order[at]], doomed)
  {
  }

  lemma SweepErases<K(!new), V>(all: map<K, V>, now: map<K, V>, order: seq<K>, at: nat, judged: seq<K>,
                                doomed: (K, V) -> bool)
    requires Sweeping(all, now, order, at, judged, doomed) && at < |order|
    requires doomed(order[at], now[order[at]])
    ensures ListsOnce(SwapErased(order, at), (now - {order[at]}).Keys)
    ensures Sweeping(all, now - {order[at]}, SwapErased(order, at), at, judged + [order[at]], doomed)
  {
    var k := order[at];
    SwapErasedLists(order, now.Keys, at);
    assert (now - {k}).Keys == now.Keys - {k};
    var order', now', judged' := SwapErased(order, at), now - {k}, judged + [k];
    forall i | 0 <= i < at ensures order'[i] in judged' {
      assert order'[i] == order[i];
    }
    forall i | at <= i < |order'| ensures order'[i] !in judged' {
      assert order'[i] in now';
    }
  }

  lemma SwapErasedLists<K>(order: seq<K>, keys: set<K>, at: nat)
    requires ListsOnce(order, keys) && at < |order|
    ensures ListsOnce(SwapErased(order, at), keys - {order[at]})
  {
    var rest := SwapErased(order, at);
    forall k | k in keys - {order[at]} ensures k in rest {
      var i :| 0 <= i < |order| && order[i] == k;
      assert rest[if i == |order| - 1 then at else i] == k;
    }
  }

  lemma SweepEnds<K(!new), V>(all: map<K, V>, now: map<K, V>, order: seq<K>, at: nat, judged: seq<K>,
                              doomed: (K, V) -> bool)
    requires Sweeping(all, now, order, at, judged, doomed) && at == |order|
    ensures ListsOnce(judged, all.Keys) && |order| == |now|
    ensures now == map k | k in all && !doomed(k, all[k]) :: all[k]
  {
    ListsOnceCount(order, now.Keys);
    forall k | k in all ensures k in judged {
      if k in now {
        var i :| 0 <= i < |order| && order[i] == k;
        assert order[i] in judged;
      }
    }
  }
}
