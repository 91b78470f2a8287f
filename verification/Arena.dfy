/**
 The node arena, its free list and the dense iteration vector, as values.

 A node's `aux` is its position in the iteration vector while the node is live
 and the next free index while it is free.  A node that has been acquired but
 not yet linked is in neither role; it counts as `used`.
 */
module Arena {
  import opened Layout
  import opened Maps

  const CHUNK_SIZE: nat := 1024

  /** The raw storage of a node: unconstructed, or holding an element. */
  datatype Storage<K, V> = Raw | Live(key: K, value: V)

  datatype Node<K, V> = Node(storage: Storage<K, V>, aux: nat)

  // ---- free list -----------------------------------------------------------

  function Link(free: seq<nat>, position: nat): nat {
    if position < |free| then free[position] else NULL_INDEX
  }

  ghost predicate ChainedAt<K, V>(arena: seq<Node<K, V>>, high: nat, free: seq<nat>, i: nat) {
    i < |free| && free[i] < high <= |arena| && arena[free[i]].aux == Link(free, i + 1)
  }

  ghost predicate Differ(free: seq<nat>, i: nat, j: nat) {
    i < j < |free| ==> free[i] != free[j]
  }

  /** `free` lists distinct nodes below `high`, chained through `aux` from `head`. */
  ghost predicate Chain<K, V>(arena: seq<Node<K, V>>, high: nat, head: nat, free: seq<nat>) {
    && high <= |arena|
    && (forall i, j :: 0 <= i < j < |free| ==> Differ(free, i, j))
    && head == Link(free, 0)
    && (forall i :: 0 <= i < |free| ==> ChainedAt(arena, high, free, i))
  }

  /** Each index below `high` is either used or free. */
  ghost predicate Split(high: nat, free: seq<nat>, used: set<nat>) {
    && (forall x :: x in used ==> x < high && x !in free)
    && (forall x :: 0 <= x < high ==> x in used || x in free)
  }

  /** Indices below `high` are partitioned into `used` and the chain `free` that starts at `head`. */
  ghost predicate Partitioned<K, V>(arena: seq<Node<K, V>>, high: nat, head: nat, free: seq<nat>, used: set<nat>) {
    && |arena| % CHUNK_SIZE == 0 && high < NULL_INDEX
    && Chain(arena, high, head, free)
    && Split(high, free, used)
  }

  lemma TakeFree<K, V>(arena: seq<Node<K, V>>, high: nat, head: nat, free: seq<nat>, used: set<nat>)
    requires Partitioned(arena, high, head, free, used) && head != NULL_INDEX
    ensures head < high && head !in used && free != []
    ensures Partitioned(arena, high, arena[head].aux, free[1..], used + {head})
  {
    assert head == free[0] && free[0] in free && ChainedAt(arena, high, free, 0);
    TailOfChain(arena, high, head, free);
    forall x | 0 <= x < high ensures x in used + {head} || x in free[1..] {
      if x in free && x != head { var i :| 0 <= i < |free| && free[i] == x; assert free[1..][i - 1] == x; }
    }
  }

  lemma TailOfChain<K, V>(arena: seq<Node<K, V>>, high: nat, head: nat, free: seq<nat>)
    requires Chain(arena, high, head, free) && free != []
    ensures head < high && Chain(arena, high, arena[head].aux, free[1..])
    ensures head !in free[1..]
  {
    var rest := free[1..];
    assert ChainedAt(arena, high, free, 0);
    forall i | 0 <= i < |rest| ensures ChainedAt(arena, high, rest, i) && rest[i] != head {
      assert ChainedAt(arena, high, free, i + 1) && Differ(free, 0, i + 1);
    }
    forall i, j | 0 <= i < j < |rest| ensures Differ(rest, i, j) {
      assert Differ(free, i + 1, j + 1);
    }
  }

  lemma TakeFresh<K, V>(arena: seq<Node<K, V>>, high: nat, head: nat, free: seq<nat>, used: set<nat>)
    requires Partitioned(arena, high, head, free, used) && head == NULL_INDEX
    requires high < |arena| && high + 1 < NULL_INDEX
    ensures free == [] && high !in used
    ensures Partitioned(arena, high + 1, head, free, used + {high})
  {
    assert free != [] ==> ChainedAt(arena, high, free, 0);
  }

  /** With no free node, everything below the high-water mark is in use. */
  lemma AllUsed<K, V>(arena: seq<Node<K, V>>, high: nat, head: nat, free: seq<nat>, used: set<nat>)
    requires Partitioned(arena, high, head, free, used) && head == NULL_INDEX
    ensures |used| == high
  {
    assert free != [] ==> ChainedAt(arena, high, free, 0);
    Initial(high, used);
  }

  lemma {:induction false} Initial(count: nat, members: set<nat>)
    requires forall x :: x in members ==> x < count
    requires forall x :: 0 <= x < count ==> x in members
    ensures |members| == count
  {
    if count == 0 {
      assert members == {};
    } else {
      Initial(count - 1, members - {count - 1});
    }
  }

  lemma GiveBack<K, V>(arena: seq<Node<K, V>>, high: nat, head: nat, free: seq<nat>, used: set<nat>, node: nat)
    requires Partitioned(arena, high, head, free, used) && node in used
    ensures Partitioned(arena[node := arena[node].(aux := head)], high, node, [node] + free, used - {node})
  {
    LongerChain(arena, high, head, free, node);
    FreedSplit(high, free, used, node);
  }

  lemma FreedSplit(high: nat, free: seq<nat>, used: set<nat>, node: nat)
    requires Split(high, free, used) && node in used
    ensures Split(high, [node] + free, used - {node})
  {
    var free' := [node] + free;
    assert free'[0] == node;
    forall x | x in free ensures x in free' {
      var i :| 0 <= i < |free| && free[i] == x;
      assert free'[i + 1] == x;
    }
  }

  lemma LongerChain<K, V>(arena: seq<Node<K, V>>, high: nat, head: nat, free: seq<nat>, node: nat)
    requires Chain(arena, high, head, free) && node < high && node !in free
    ensures Chain(arena[node := arena[node].(aux := head)], high, node, [node] + free)
  {
    var arena', free' := arena[node := arena[node].(aux := head)], [node] + free;
    forall i | 0 <= i < |free'| ensures ChainedAt(arena', high, free', i) {
      if i > 0 {
        assert ChainedAt(arena, high, free, i - 1);
        assert free'[i] == free[i - 1] && free[i - 1] in free;
      }
    }
    forall i, j | 0 <= i < j < |free'| ensures Differ(free', i, j) {
      if i > 0 {
        assert Differ(free, i - 1, j - 1);
      } else {
        assert free'[j] == free[j - 1] && free[j - 1] in free;
      }
    }
  }

  /** The chain depends on the links of the free nodes only. */
  lemma OtherLinksAreFree<K, V>(arena: seq<Node<K, V>>, arena': seq<Node<K, V>>,
                                high: nat, head: nat, free: seq<nat>, used: set<nat>)
    requires Partitioned(arena, high, head, free, used)
    requires |arena'| >= |arena| && |arena'| % CHUNK_SIZE == 0
    requires forall x :: 0 <= x < |arena| && x !in used ==> arena'[x].aux == arena[x].aux
    ensures Partitioned(arena', high, head, free, used)
  {
    forall i | 0 <= i < |free| ensures ChainedAt(arena', high, free, i) {
      assert ChainedAt(arena, high, free, i) && free[i] in free;
    }
  }

  // ---- iteration vector ----------------------------------------------------

  /** `iteration` lists the live nodes without repetition, and `aux` is its inverse. */
  ghost predicate Listed<K, V>(iteration: seq<nat>, arena: seq<Node<K, V>>, live: set<nat>) {
    && (forall i :: 0 <= i < |iteration| ==>
          iteration[i] in live && iteration[i] < |arena| && arena[iteration[i]].aux == i)
    && (forall x :: x in live ==> x < |arena| && arena[x].aux < |iteration| && iteration[arena[x].aux] == x)
  }

  lemma {:induction false} ListedCount<K, V>(iteration: seq<nat>, arena: seq<Node<K, V>>, live: set<nat>)
    requires Listed(iteration, arena, live)
    ensures |iteration| == |live|
  {
    Enumerates(iteration, live);
  }

  lemma {:induction false} Enumerates(list: seq<nat>, members: set<nat>)
    requires forall x :: x in members ==> x in list
    requires forall i :: 0 <= i < |list| ==> list[i] in members
    requires forall i, j :: 0 <= i < j < |list| ==> list[i] != list[j]
    ensures |list| == |members|
    decreases |list|
  {
    if list == [] {
      assert members == {};
    } else {
      var last := |list| - 1;
      forall x | x in members - {list[last]} ensures x in list[..last] {
        var i :| 0 <= i < |list| && list[i] == x;
        assert list[..last][i] == x;
      }
      Enumerates(list[..last], members - {list[last]});
    }
  }

  /** The nodes at the first positions of the iteration vector. */
  ghost function Leading(iteration: seq<nat>, count: nat): set<nat>
    requires count <= |iteration|
  {
    set x | x in iteration[..count]
  }

  lemma LeadingGrows<K, V>(iteration: seq<nat>, arena: seq<Node<K, V>>, live: set<nat>, count: nat)
    requires Listed(iteration, arena, live) && count < |iteration|
    ensures iteration[count] in live && iteration[count] !in Leading(iteration, count)
    ensures Leading(iteration, count + 1) == Leading(iteration, count) + {iteration[count]}
  {
    assert iteration[..count + 1] == iteration[..count] + [iteration[count]];
  }

  lemma LeadingEnds<K, V>(iteration: seq<nat>, arena: seq<Node<K, V>>, live: set<nat>)
    requires Listed(iteration, arena, live)
    ensures Leading(iteration, |iteration|) == live
  {
    forall x | x in live ensures x in iteration[..|iteration|] {
      assert iteration[..|iteration|][arena[x].aux] == x;
    }
  }

  /** `slots` has exactly the nodes at the first `count` positions of the iteration vector. */
  ghost predicate Covers(slots: map<nat, nat>, iteration: seq<nat>, count: nat) {
    count <= |iteration| && slots.Keys == Leading(iteration, count) && |slots| == count
  }

  lemma NothingCovered(iteration: seq<nat>)
    ensures Covers(map[], iteration, 0)
  {
  }

  lemma CoveredKeys(slots: map<nat, nat>, iteration: seq<nat>, count: nat)
    requires Covers(slots, iteration, count)
    ensures count <= |iteration| && slots.Keys == Leading(iteration, count)
  {
  }

  lemma CoversNext<K, V>(before: map<nat, nat>, after: map<nat, nat>,
                         iteration: seq<nat>, arena: seq<Node<K, V>>, live: set<nat>, count: nat)
    requires Listed(iteration, arena, live) && count < |iteration|
    requires Covers(before, iteration, count) && Joined(before, after, iteration[count])
    ensures Covers(after, iteration, count + 1)
  {
    LeadingGrows(iteration, arena, live, count);
  }

  lemma Append<K, V>(iteration: seq<nat>, arena: seq<Node<K, V>>, live: set<nat>, node: nat)
    requires Listed(iteration, arena, live) && node !in live && node < |arena|
    ensures Listed(iteration + [node], arena[node := arena[node].(aux := |iteration|)], live + {node})
  {
  }

  function Unlinked<K, V>(iteration: seq<nat>, arena: seq<Node<K, V>>, node: nat): seq<Node<K, V>>
    requires node < |arena| && |iteration| > 0 && iteration[|iteration| - 1] < |arena|
  {
    var last := iteration[|iteration| - 1];
    arena[last := arena[last].(aux := arena[node].aux)]
  }

  lemma Unlink<K, V>(iteration: seq<nat>, arena: seq<Node<K, V>>, live: set<nat>, node: nat)
    requires Listed(iteration, arena, live) && node in live
    ensures |iteration| > 0 && arena[node].aux < |iteration|
    ensures Listed(SwapErased(iteration, arena[node].aux), Unlinked(iteration, arena, node), live - {node})
  {
  }

  /** The positions of the live nodes are all that the vector depends on. */
  lemma OtherLinksAreListed<K, V>(iteration: seq<nat>, arena: seq<Node<K, V>>, arena': seq<Node<K, V>>, live: set<nat>)
    requires Listed(iteration, arena, live)
    requires |arena'| >= |arena|
    requires forall x :: x in live ==> arena'[x].aux == arena[x].aux
    ensures Listed(iteration, arena', live)
  {
  }

  // ---- stored elements -----------------------------------------------------

  /** Every node of `keyOf` holds an element with that key, unless its element was moved out. */
  ghost predicate Stored<K, V>(arena: seq<Node<K, V>>, keyOf: map<nat, K>, moved: set<nat>) {
    forall x :: x in keyOf ==>
      x < |arena| && arena[x].storage.Live? && (x !in moved ==> arena[x].storage.key == keyOf[x])
  }

  /** Exactly the nodes of `built` hold a constructed element. */
  ghost predicate Constructed<K, V>(arena: seq<Node<K, V>>, built: set<nat>) {
    forall x :: 0 <= x < |arena| ==> (arena[x].storage.Live? <==> x in built)
  }

  ghost predicate Inverse<K>(keyOf: map<nat, K>, nodeOf: map<K, nat>) {
    && (forall x :: x in keyOf ==> keyOf[x] in nodeOf && nodeOf[keyOf[x]] == x)
    && (forall k :: k in nodeOf ==> nodeOf[k] in keyOf && keyOf[nodeOf[k]] == k)
  }

  lemma NothingIsInverse<K>()
    ensures Inverse<K>(map[], map[])
  {
  }

  lemma InverseExtends<K>(keyOf: map<nat, K>, nodeOf: map<K, nat>, node: nat, key: K)
    requires Inverse(keyOf, nodeOf) && node !in keyOf && key !in nodeOf
    ensures Inverse(keyOf[node := key], nodeOf[key := node])
  {
  }

  lemma InverseShrinks<K>(keyOf: map<nat, K>, nodeOf: map<K, nat>, node: nat)
    requires Inverse(keyOf, nodeOf) && node in keyOf
    ensures Inverse(keyOf - {node}, nodeOf - {keyOf[node]})
  {
  }

  lemma InverseCount<K>(keyOf: map<nat, K>, nodeOf: map<K, nat>)
    requires Inverse(keyOf, nodeOf)
    ensures |keyOf| == |nodeOf|
    decreases |keyOf|
  {
    if keyOf == map[] {
      assert nodeOf.Keys == {};
    } else {
      var x :| x in keyOf;
      var k := keyOf[x];
      InverseCount(keyOf - {x}, nodeOf - {k});
      assert keyOf.Keys == (keyOf - {x}).Keys + {x};
      assert nodeOf.Keys == (nodeOf - {k}).Keys + {k};
    }
  }

  /** The finite map that a table with these nodes denotes. */
  ghost function Denoted<K, V>(nodeOf: map<K, nat>, arena: seq<Node<K, V>>): map<K, V> {
    map k | k in nodeOf && nodeOf[k] < |arena| && arena[nodeOf[k]].storage.Live? :: arena[nodeOf[k]].storage.value
  }

  /** The nodes of `live` keep their elements. */
  ghost predicate Kept<K, V>(before: seq<Node<K, V>>, after: seq<Node<K, V>>, live: set<nat>) {
    forall x :: x in live ==> x < |before| && x < |after| && after[x].storage == before[x].storage
  }

  lemma KeptIsStored<K, V>(before: seq<Node<K, V>>, after: seq<Node<K, V>>, keyOf: map<nat, K>, moved: set<nat>)
    requires Stored(before, keyOf, moved) && Kept(before, after, keyOf.Keys)
    ensures Stored(after, keyOf, moved)
  {
  }

  /** A table denotes a value for each of its keys. */
  lemma DenotedKeys<K, V>(arena: seq<Node<K, V>>, keyOf: map<nat, K>, nodeOf: map<K, nat>)
    requires Stored(arena, keyOf, {}) && Inverse(keyOf, nodeOf)
    ensures Denoted(nodeOf, arena).Keys == nodeOf.Keys
  {
  }

  lemma KeptIsDenoted<K, V>(before: seq<Node<K, V>>, after: seq<Node<K, V>>, keyOf: map<nat, K>, nodeOf: map<K, nat>)
    requires Stored(before, keyOf, {}) && Kept(before, after, keyOf.Keys) && Inverse(keyOf, nodeOf)
    ensures Denoted(nodeOf, after) == Denoted(nodeOf, before)
  {
  }

  /** Attaching a new node adds its element to the map. */
  lemma AttachedDenotes<K, V>(before: seq<Node<K, V>>, made: seq<Node<K, V>>, after: seq<Node<K, V>>,
                              keyOf: map<nat, K>, nodeOf: map<K, nat>, node: nat, key: K, value: V)
    requires Stored(before, keyOf, {}) && Inverse(keyOf, nodeOf) && key !in nodeOf
    requires Kept(before, made, keyOf.Keys) && Kept(made, after, keyOf[node := key].Keys)
    requires node < |made| && made[node].storage == Live(key, value)
    ensures Denoted(nodeOf[key := node], after) == Denoted(nodeOf, before)[key := value]
  {
    assert node in keyOf[node := key].Keys;
    assert keyOf.Keys <= keyOf[node := key].Keys;
    assert forall k :: k in nodeOf ==> after[nodeOf[k]].storage == before[nodeOf[k]].storage;
  }

  /** Detaching a node takes its key out of the map. */
  lemma DetachedDenotes<K, V>(before: seq<Node<K, V>>, after: seq<Node<K, V>>,
                              keyOf: map<nat, K>, nodeOf: map<K, nat>, node: nat)
    requires Stored(before, keyOf, {}) && Inverse(keyOf, nodeOf) && node in keyOf
    requires Kept(before, after, (keyOf - {node}).Keys)
    ensures Denoted(nodeOf - {keyOf[node]}, after) == Denoted(nodeOf, before) - {keyOf[node]}
  {
    assert forall k :: k in nodeOf && k != keyOf[node] ==> nodeOf[k] in (keyOf - {node}).Keys;
    assert forall k :: k in nodeOf && k != keyOf[node] ==> after[nodeOf[k]].storage == before[nodeOf[k]].storage;
  }

  /** Assigning to the mapped value of a live node changes that value alone. */
  lemma ValueAssigned<K, V>(before: seq<Node<K, V>>, high: nat, head: nat, free: seq<nat>, iteration: seq<nat>,
                            keyOf: map<nat, K>, nodeOf: map<K, nat>, node: nat, value: V)
    requires Partitioned(before, high, head, free, keyOf.Keys) && Constructed(before, keyOf.Keys)
    requires Listed(iteration, before, keyOf.Keys) && Stored(before, keyOf, {}) && Inverse(keyOf, nodeOf)
    requires node in keyOf
    ensures node < |before| && before[node].storage.Live?
    ensures var after := before[node := before[node].(storage := Live(before[node].storage.key, value))];
      && Partitioned(after, high, head, free, keyOf.Keys) && Constructed(after, keyOf.Keys)
      && Listed(iteration, after, keyOf.Keys) && Stored(after, keyOf, {})
      && Denoted(nodeOf, after) == Denoted(nodeOf, before)[keyOf[node] := value]
  {
    var after := before[node := before[node].(storage := Live(before[node].storage.key, value))];
    OtherLinksAreFree(before, after, high, head, free, keyOf.Keys);
    OtherLinksAreListed(iteration, before, after, keyOf.Keys);
    assert forall k :: k in nodeOf && k != keyOf[node] ==> nodeOf[k] != node;
  }

  /** Moving an element out of a live node leaves something constructed there. */
  lemma ElementMoved<K, V>(before: seq<Node<K, V>>, high: nat, head: nat, free: seq<nat>, iteration: seq<nat>,
                           keyOf: map<nat, K>, node: nat, leftKey: K, leftValue: V)
    requires Partitioned(before, high, head, free, keyOf.Keys) && Constructed(before, keyOf.Keys)
    requires Listed(iteration, before, keyOf.Keys) && Stored(before, keyOf, {}) && node in keyOf
    ensures node < |before|
    ensures var after := before[node := before[node].(storage := Live(leftKey, leftValue))];
      && Partitioned(after, high, head, free, keyOf.Keys) && Constructed(after, keyOf.Keys)
      && Listed(iteration, after, keyOf.Keys) && Stored(after, keyOf, {node})
      && Kept(before, after, keyOf.Keys - {node})
  {
    var after := before[node := before[node].(storage := Live(leftKey, leftValue))];
    OtherLinksAreFree(before, after, high, head, free, keyOf.Keys);
    OtherLinksAreListed(iteration, before, after, keyOf.Keys);
  }

  lemma SpareIsRaw<K, V>(before: seq<Node<K, V>>, after: seq<Node<K, V>>, used: set<nat>, node: nat)
    requires before <= after && forall x :: |before| <= x < |after| ==> after[x].storage.Raw?
    requires Constructed(before, used) && node !in used && node < |after|
    ensures after[node].storage.Raw?
  {
    if node < |before| {
      assert after[node] == before[node];
    }
  }

  /** The free list ignores stored elements. */
  lemma ElementsAreNotLinks<K, V>(before: seq<Node<K, V>>, after: seq<Node<K, V>>,
                                  high: nat, head: nat, free: seq<nat>, used: set<nat>)
    requires Partitioned(before, high, head, free, used)
    requires |after| == |before| && forall x :: 0 <= x < |before| ==> after[x].aux == before[x].aux
    ensures Partitioned(after, high, head, free, used)
  {
    OtherLinksAreFree(before, after, high, head, free, used);
  }

  /** Appending raw nodes disturbs nothing. */
  lemma NodeTaken<K, V>(before: seq<Node<K, V>>, after: seq<Node<K, V>>, iteration: seq<nat>, keyOf: map<nat, K>)
    requires before <= after && forall x :: |before| <= x < |after| ==> after[x].storage.Raw?
    requires Constructed(before, keyOf.Keys) && Listed(iteration, before, keyOf.Keys) && Stored(before, keyOf, {})
    ensures Constructed(after, keyOf.Keys) && Listed(iteration, after, keyOf.Keys) && Stored(after, keyOf, {})
    ensures Kept(before, after, keyOf.Keys)
  {
    assert forall x :: 0 <= x < |before| ==> after[x] == before[x];
  }

  /** Nor does constructing an element in an unused node. */
  lemma NodeMade<K, V>(before: seq<Node<K, V>>, high: nat, head: nat, free: seq<nat>, iteration: seq<nat>,
                       keyOf: map<nat, K>, node: nat, key: K, value: V)
    requires Partitioned(before, high, head, free, keyOf.Keys + {node}) && Constructed(before, keyOf.Keys)
    requires Listed(iteration, before, keyOf.Keys) && Stored(before, keyOf, {})
    requires node < |before| && node !in keyOf
    ensures var after := before[node := before[node].(storage := Live(key, value))];
      && Partitioned(after, high, head, free, keyOf.Keys + {node}) && Constructed(after, keyOf.Keys + {node})
      && Listed(iteration, after, keyOf.Keys) && Stored(after, keyOf, {})
      && Kept(before, after, keyOf.Keys)
  {
    var after := before[node := before[node].(storage := Live(key, value))];
    ElementsAreNotLinks(before, after, high, head, free, keyOf.Keys + {node});
  }

  lemma WithNothing(s: set<nat>)
    ensures s + {} == s
  {
  }

  lemma KeysExtend<K>(keyOf: map<nat, K>, node: nat, key: K)
    ensures keyOf[node := key].Keys == keyOf.Keys + {node}
  {
  }

  /** Linking a constructed node in transit turns it into a live one. */
  lemma NodeLinked<K, V>(before: seq<Node<K, V>>, high: nat, head: nat, free: seq<nat>, iteration: seq<nat>,
                         keyOf: map<nat, K>, node: nat, key: K, value: V)
    requires Partitioned(before, high, head, free, keyOf.Keys + {node}) && Constructed(before, keyOf.Keys + {node})
    requires Listed(iteration, before, keyOf.Keys) && Stored(before, keyOf, {})
    requires node !in keyOf && node < |before| && before[node].storage == Live(key, value)
    ensures var after, keyOf' := before[node := before[node].(aux := |iteration|)], keyOf[node := key];
      && Partitioned(after, high, head, free, keyOf'.Keys) && Constructed(after, keyOf'.Keys)
      && Listed(iteration + [node], after, keyOf'.Keys) && Stored(after, keyOf', {})
      && Kept(before, after, keyOf'.Keys)
  {
    KeysExtend(keyOf, node, key);
    var after := before[node := before[node].(aux := |iteration|)];
    OtherLinksAreFree(before, after, high, head, free, keyOf.Keys + {node});
    Append(iteration, before, keyOf.Keys, node);
  }

  function Destroyed<K, V>(arena: seq<Node<K, V>>, node: nat): seq<Node<K, V>>
    requires node < |arena|
  {
    arena[node := arena[node].(storage := Raw)]
  }

  /** Destroying the element of a node leaves its links and all other elements alone. */
  lemma NodeDestroyed<K, V>(before: seq<Node<K, V>>, high: nat, head: nat, free: seq<nat>, used: set<nat>,
                            iteration: seq<nat>, live: set<nat>, built: set<nat>, node: nat)
    requires Partitioned(before, high, head, free, used) && Constructed(before, built)
    requires Listed(iteration, before, live) && node < |before| && before[node].storage.Live?
    ensures Partitioned(Destroyed(before, node), high, head, free, used)
    ensures Constructed(Destroyed(before, node), built - {node})
    ensures Listed(iteration, Destroyed(before, node), live)
  {
    OtherLinksAreFree(before, Destroyed(before, node), high, head, free, used);
    OtherLinksAreListed(iteration, before, Destroyed(before, node), live);
  }

  lemma LiveIsConstructed<K, V>(arena: seq<Node<K, V>>, iteration: seq<nat>, live: set<nat>, node: nat)
    requires Listed(iteration, arena, live) && Constructed(arena, live) && node in live
    ensures node < |arena| && arena[node].storage.Live? && arena[node].aux < |iteration|
    ensures forall x :: x in live ==> x < |arena|
  {
  }

  lemma ShorterBySwap(list: seq<nat>, position: nat)
    requires position < |list|
    ensures |SwapErased(list, position)| == |list| - 1
  {
  }

  lemma DestroyedIsKept<K, V>(before: seq<Node<K, V>>, node: nat, live: set<nat>)
    requires node < |before| && node !in live && forall x :: x in live ==> x < |before|
    ensures Kept(before, Destroyed(before, node), live)
  {
  }

  /** Setting the link of a node that is not live. */
  lemma DeadLink<K, V>(before: seq<Node<K, V>>, iteration: seq<nat>, live: set<nat>,
                       built: set<nat>, node: nat, link: nat)
    requires Listed(iteration, before, live) && Constructed(before, built) && node < |before| && node !in live
    ensures Listed(iteration, before[node := before[node].(aux := link)], live)
    ensures Constructed(before[node := before[node].(aux := link)], built)
    ensures Kept(before, before[node := before[node].(aux := link)], live)
  {
    OtherLinksAreListed(iteration, before, before[node := before[node].(aux := link)], live);
  }

  /** A position in the iteration vector is no link of the free list. */
  lemma UnlinkedIsPartitioned<K, V>(before: seq<Node<K, V>>, high: nat, head: nat, free: seq<nat>, used: set<nat>,
                                    iteration: seq<nat>, live: set<nat>, built: set<nat>, node: nat)
    requires Partitioned(before, high, head, free, used) && Constructed(before, built)
    requires Listed(iteration, before, live) && node in live && live <= used
    ensures |iteration| > 0 && node < |before| && iteration[|iteration| - 1] < |before|
    ensures Partitioned(Unlinked(iteration, before, node), high, head, free, used)
    ensures Constructed(Unlinked(iteration, before, node), built)
    ensures Kept(before, Unlinked(iteration, before, node), live)
  {
    var last := iteration[|iteration| - 1];
    assert last in live;
    OtherLinksAreFree(before, Unlinked(iteration, before, node), high, head, free, used);
  }

  lemma KeysShrink<K>(keyOf: map<nat, K>, node: nat)
    ensures (keyOf - {node}).Keys == keyOf.Keys - {node}
  {
  }

  lemma KeptThrough<K, V>(first: seq<Node<K, V>>, second: seq<Node<K, V>>, third: seq<Node<K, V>>, live: set<nat>)
    requires Kept(first, second, live) && Kept(second, third, live)
    ensures Kept(first, third, live)
  {
  }

  /** With one node's element moved out and the node removed, the others are still stored. */
  lemma StoredShrinks<K, V>(before: seq<Node<K, V>>, after: seq<Node<K, V>>,
                            keyOf: map<nat, K>, moved: set<nat>, node: nat)
    requires Stored(before, keyOf, moved) && moved <= {node} && Kept(before, after, keyOf.Keys - {node})
    ensures Stored(after, keyOf - {node}, {})
  {
  }

  lemma SmallerLive<K, V>(before: seq<Node<K, V>>, after: seq<Node<K, V>>, live: set<nat>, fewer: set<nat>)
    requires Kept(before, after, live) && fewer <= live
    ensures Kept(before, after, fewer)
  {
  }

  /** The keys of the live nodes, in iteration order. */
  ghost function KeyOrder<K>(iteration: seq<nat>, keyOf: map<nat, K>): seq<K>
    requires forall i :: 0 <= i < |iteration| ==> iteration[i] in keyOf
  {
    seq(|iteration|, i requires 0 <= i < |iteration| => keyOf[iteration[i]])
  }

  lemma KeyOrderLists<K, V>(iteration: seq<nat>, arena: seq<Node<K, V>>, keyOf: map<nat, K>, nodeOf: map<K, nat>)
    requires Listed(iteration, arena, keyOf.Keys) && Inverse(keyOf, nodeOf)
    ensures forall i :: 0 <= i < |iteration| ==> iteration[i] in keyOf
    ensures ListsOnce(KeyOrder(iteration, keyOf), nodeOf.Keys)
  {
    var order := KeyOrder(iteration, keyOf);
    forall k | k in nodeOf ensures k in order {
      assert order[arena[nodeOf[k]].aux] == k;
    }
    forall i, j | 0 <= i < j < |order| ensures order[i] != order[j] {
      assert arena[iteration[i]].aux == i && arena[iteration[j]].aux == j;
      assert nodeOf[order[i]] == iteration[i] && nodeOf[order[j]] == iteration[j];
    }
  }

  lemma KeyOrderGrows<K>(iteration: seq<nat>, keyOf: map<nat, K>, nodeOf: map<K, nat>,
                         keyOf': map<nat, K>, nodeOf': map<K, nat>, node: nat, key: K)
    requires Inverse(keyOf, nodeOf) && Inverse(keyOf', nodeOf')
    requires key !in nodeOf && nodeOf' == nodeOf[key := node]
    requires forall i :: 0 <= i < |iteration| ==> iteration[i] in keyOf
    ensures node in keyOf' && forall i :: 0 <= i < |iteration| ==> iteration[i] in keyOf'
    ensures KeyOrder(iteration + [node], keyOf') == KeyOrder(iteration, keyOf) + [key]
  {
    assert nodeOf'[key] == node;
    forall i | 0 <= i < |iteration| ensures iteration[i] in keyOf' && keyOf'[iteration[i]] == keyOf[iteration[i]] {
      assert nodeOf'[keyOf[iteration[i]]] == iteration[i];
    }
  }

  lemma SameKeyOrder<K>(iteration: seq<nat>, keyOf: map<nat, K>, keyOf': map<nat, K>, nodeOf: map<K, nat>)
    requires Inverse(keyOf, nodeOf) && Inverse(keyOf', nodeOf)
    requires forall i :: 0 <= i < |iteration| ==> iteration[i] in keyOf
    ensures forall i :: 0 <= i < |iteration| ==> iteration[i] in keyOf'
    ensures KeyOrder(iteration, keyOf') == KeyOrder(iteration, keyOf)
  {
    forall i | 0 <= i < |iteration| ensures iteration[i] in keyOf' && keyOf'[iteration[i]] == keyOf[iteration[i]] {
      assert nodeOf[keyOf[iteration[i]]] == iteration[i];
    }
  }

  /** Swap-on-erase of a node is swap-on-erase of its key. */
  lemma KeyOrderSwaps<K, V>(iteration: seq<nat>, arena: seq<Node<K, V>>, keyOf: map<nat, K>, node: nat)
    requires Listed(iteration, arena, keyOf.Keys) && node in keyOf
    ensures node < |arena| && arena[node].aux < |iteration|
    ensures forall i :: 0 <= i < |iteration| ==> iteration[i] in keyOf
    ensures var position := arena[node].aux;
      var rest := SwapErased(iteration, position);
      && (forall i :: 0 <= i < |rest| ==> rest[i] in keyOf - {node})
      && KeyOrder(rest, keyOf - {node}) == SwapErased(KeyOrder(iteration, keyOf), position)
  {
    var position := arena[node].aux;
    var rest := SwapErased(iteration, position);
    forall i | 0 <= i < |rest| ensures rest[i] in keyOf - {node} {
      assert i != position ==> arena[iteration[i]].aux == i;
      assert arena[iteration[|iteration| - 1]].aux == |iteration| - 1;
    }
    assert |KeyOrder(rest, keyOf - {node})| == |iteration| - 1;
  }

  /** An arena of raw nodes only can be handed out afresh. */
  lemma AllRaw<K, V>(arena: seq<Node<K, V>>)
    requires Constructed(arena, {}) && |arena| % CHUNK_SIZE == 0
    ensures Partitioned(arena, 0, NULL_INDEX, [], {}) && Constructed(arena, {})
    ensures Listed([], arena, {}) && Stored(arena, map[], {})
  {
  }
}
