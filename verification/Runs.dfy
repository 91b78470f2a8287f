/**
 Whole runs.  An ordered finite map that knows the size fields of a table serves
 as the oracle; every finite sequence of operations takes the container and the
 oracle through the same states.
 */
module Runs {
  import Bits
  import opened Layout
  import opened Sizing
  import opened Maps
  import opened Engine
  import UnorderedMap

  type Factor = f: real | f > 0.0 witness 1.0

  /**
   What a client can observe: the entries, the order in which iterators visit
   them, the node handle that extraction fills and insertion empties, and the
   hash policy.
   */
  datatype Oracle<K, V> = Oracle(order: seq<K>, values: map<K, V>, handle: Handle<K, V>,
                                 sizes: Sizes, factor: Factor)

  datatype Op<K, V> =
    | Store(key: K, value: V)
    | Emplace(key: K, value: V)
    | TryEmplace(key: K, value: V)
    | InsertOrAssign(key: K, value: V)
    | EraseKey(key: K)
    | EraseFound(key: K)
    | EraseRange(first: nat, last: nat)
    | Find(key: K)
    | Rehash(requested: nat)
    | Reserve(expected: nat)
    | SetFactor(factor: real)
    | Clear
    | Extract(key: K)
    | InsertHandle
    | CopyBack

  datatype Outcome<V> = Done | Inserted(flag: bool) | Erased(count: nat) | Missing | Found(value: V)

  // ---- the oracle ----------------------------------------------------------

  /** The default-constructed container. */
  ghost function Nothing<K, V>(): Oracle<K, V> {
    Oracle([], map[], NoNode, Sizes(0, 0), DEFAULT_MAX_LOAD_FACTOR)
  }

  ghost function Added<K, V>(o: Oracle<K, V>, key: K, value: V): Oracle<K, V> {
    if key in o.values then o
    else
      o.(order := o.order + [key], values := o.values[key := value], sizes := Grown(o.sizes, |o.order|, o.factor))
  }

  ghost function Assigned<K, V>(o: Oracle<K, V>, key: K, value: V): Oracle<K, V> {
    Added(o, key, value).(values := o.values[key := value])
  }

  ghost function Without<K, V>(o: Oracle<K, V>, key: K): Oracle<K, V> {
    o.(order := SwappedOut(o.order, key), values := o.values - {key})
  }

  function Clip(position: nat, size: nat): nat {
    if position < size then position else size
  }

  /** The keys that a range of iterators stands for. */
  ghost function InRange<K>(order: seq<K>, first: nat, last: nat): seq<K> {
    var end := Clip(last, |order|);
    order[Clip(first, end)..end]
  }

  ghost function WithoutRange<K, V>(o: Oracle<K, V>, first: nat, last: nat): Oracle<K, V> {
    var keys := InRange(o.order, first, last);
    o.(order := AllSwappedOut(o.order, keys), values := o.values - (set k | k in keys))
  }

  ghost function Rehashed<K, V>(o: Oracle<K, V>, requested: nat): Oracle<K, V> {
    var count := RehashTarget(requested, |o.order|, o.factor);
    o.(sizes := Sizes(count, CapacityFor(count, o.factor)))
  }

  /** Factors that are not positive select the default. */
  function Effective(factor: real): Factor {
    if factor > 0.0 then factor else DEFAULT_MAX_LOAD_FACTOR
  }

  ghost function Applied<K, V>(op: Op<K, V>, o: Oracle<K, V>): Oracle<K, V> {
    match op
    case Store(key, value) => Assigned(o, key, value)
    case Emplace(key, value) => Added(o, key, value)
    case TryEmplace(key, value) => Added(o, key, value)
    case InsertOrAssign(key, value) => Assigned(o, key, value)
    case EraseKey(key) => Without(o, key)
    case EraseFound(key) => Without(o, key)
    case EraseRange(first, last) => WithoutRange(o, first, last)
    case Find(_) => o
    case Rehash(requested) => Rehashed(o, requested)
    case Reserve(expected) => Rehashed(o, CountForElements(expected, o.factor))
    case SetFactor(factor) =>
      o.(factor := Effective(factor), sizes := Sizes(o.sizes.count, CapacityFor(o.sizes.count, Effective(factor))))
    case Clear => o.(order := [], values := map[])
    case Extract(key) =>
      Without(o, key).(handle := if key in o.values then Holding(key, o.values[key]) else NoNode)
    case InsertHandle =>
      if o.handle.Holding? && o.handle.key !in o.values
      then Added(o, o.handle.key, o.handle.value).(handle := NoNode) else o
    case CopyBack => if o.order == [] then o else o.(sizes := Copied(|o.order|, o.factor))
  }

  ghost function Observed<K, V>(op: Op<K, V>, o: Oracle<K, V>): Outcome<V> {
    match op
    case Emplace(key, _) => Inserted(key !in o.values)
    case TryEmplace(key, _) => Inserted(key !in o.values)
    case InsertOrAssign(key, _) => Inserted(key !in o.values)
    case EraseKey(key) => Erased(if key in o.values then 1 else 0)
    case Find(key) => if key in o.values then Found(o.values[key]) else Missing
    case InsertHandle => Inserted(o.handle.Holding? && o.handle.key !in o.values)
    case _ => Done
  }

  /** The oracle after a whole run. */
  ghost function After<K, V>(ops: seq<Op<K, V>>, o: Oracle<K, V>): Oracle<K, V> {
    if ops == [] then o else Applied(ops[|ops| - 1], After(ops[..|ops| - 1], o))
  }

  lemma AfterNothing<K, V>(o: Oracle<K, V>)
    ensures After([], o) == o
  {
  }

  lemma AfterNext<K, V>(ops: seq<Op<K, V>>, o: Oracle<K, V>, i: nat)
    requires i < |ops|
    ensures After(ops[..i + 1], o) == Applied(ops[i], After(ops[..i], o))
  {
    assert ops[..i + 1][..i] == ops[..i];
  }

  /** Rehashing to this many buckets leaves an empty one, and the sizes stay within 64 bits. */
  ghost predicate Rehashable<K, V>(o: Oracle<K, V>, requested: nat) {
    && requested <= 0x8000_0000_0000_0000
    && CountForElements(|o.order|, o.factor) <= 0x8000_0000_0000_0000
    && RehashIsSafe(requested, |o.order|, o.factor)
  }

  /** The operation stays within the sizes that the table serves. */
  ghost predicate Admissible<K, V>(op: Op<K, V>, o: Oracle<K, V>) {
    && |Applied(op, o).order| <= MAX_SIZE
    && match op
       case Rehash(requested) => Rehashable(o, requested)
       case Reserve(expected) => Rehashable(o, CountForElements(expected, o.factor))
       case SetFactor(factor) => FactorIsSensible(Effective(factor))
       case _ => true
  }

  ghost predicate AllAdmissible<K, V>(ops: seq<Op<K, V>>, o: Oracle<K, V>) {
    forall i :: 0 <= i < |ops| ==> Admissible(ops[i], After(ops[..i], o))
  }

  /** Up to a factor of one, rehashing any number of elements is admissible. */
  lemma RehashIsAdmissible<K, V>(o: Oracle<K, V>, requested: nat)
    requires |o.order| <= MAX_SIZE && o.factor <= 1.0 && FactorIsSensible(o.factor)
    requires requested <= 0x8000_0000_0000_0000
    ensures Admissible(Rehash(requested), o)
  {
    SizeIsReservable(|o.order|, o.factor);
    RehashIsSafeUpToOne(requested, |o.order|, o.factor);
  }

  lemma ReserveIsAdmissible<K, V>(o: Oracle<K, V>, expected: nat)
    requires |o.order| <= MAX_SIZE && o.factor <= 1.0 && FactorIsSensible(o.factor)
    requires expected <= MAX_SIZE
    ensures Admissible(Reserve(expected), o)
  {
    hide CountForElements, RehashIsSafe;
    SizeIsReservable(expected, o.factor);
    RehashIsAdmissible(o, CountForElements(expected, o.factor));
  }

  // ---- the load ------------------------------------------------------------

  /** The load is within a maximum of at least 1/8. */
  ghost predicate Loaded<K, V>(o: Oracle<K, V>) {
    && o.factor >= 0.125 && o.sizes.capacity == CapacityFor(o.sizes.count, o.factor)
    && WithinLoad(o.sizes.count, |o.order|, o.factor)
  }

  lemma AddingKeepsLoad<K, V>(o: Oracle<K, V>, key: K, value: V)
    requires Loaded(o)
    ensures Loaded(Added(o, key, value))
  {
    hide LoadCapacity, WithinLoad;
    GrowthSuffices(o.sizes.count, |o.order|, o.factor);
  }

  lemma RehashingKeepsLoad<K, V>(o: Oracle<K, V>, requested: nat)
    requires o.factor >= 0.125 && Rehashable(o, requested)
    ensures Loaded(Rehashed(o, requested))
  {
    hide RehashIsSafe, WithinLoad, CapacityFor, CountForElements;
    SafeRehashRestoresLoad(requested, |o.order|, o.factor);
  }

  lemma RemovingKeepsLoad<K, V>(o: Oracle<K, V>, order: seq<K>, values: map<K, V>, handle: Handle<K, V>)
    requires Loaded(o) && |order| <= |o.order|
    ensures Loaded(o.(order := order, values := values, handle := handle))
  {
    LoadShrinks(o.sizes.count, |o.order|, |order|, o.factor);
  }

  /** No operation but a change of the maximum itself takes the load above it. */
  lemma StepKeepsLoad<K, V>(op: Op<K, V>, o: Oracle<K, V>)
    requires Loaded(o) && Admissible(op, o) && !op.SetFactor?
    ensures Loaded(Applied(op, o))
  {
    hide Loaded, Added, Rehashed, Rehashable, SwappedOut, AllSwappedOut, InRange, CountForElements;
    match op
    case Store(key, value) => AssigningKeepsLoad(o, key, value);
    case InsertOrAssign(key, value) => AssigningKeepsLoad(o, key, value);
    case Emplace(key, value) => AddingKeepsLoad(o, key, value);
    case TryEmplace(key, value) => AddingKeepsLoad(o, key, value);
    case EraseKey(key) => ErasingKeepsLoad(o, key, o.handle);
    case EraseFound(key) => ErasingKeepsLoad(o, key, o.handle);
    case Extract(key) => ErasingKeepsLoad(o, key, Applied(op, o).handle);
    case EraseRange(first, last) =>
      FewerAfterSwaps(o.order, InRange(o.order, first, last));
      RemovingKeepsLoad(o, WithoutRange(o, first, last).order, WithoutRange(o, first, last).values, o.handle);
    case Clear => RemovingKeepsLoad(o, [], map[], o.handle);
    case Rehash(requested) => FactorOfLoaded(o); RehashingKeepsLoad(o, requested);
    case Reserve(expected) => FactorOfLoaded(o); RehashingKeepsLoad(o, CountForElements(expected, o.factor));
    case Find(_) =>
    case CopyBack => CopyingBackKeepsLoad(o);
    case InsertHandle =>
      if o.handle.Holding? && o.handle.key !in o.values {
        AddingKeepsLoad(o, o.handle.key, o.handle.value);
        var next := Added(o, o.handle.key, o.handle.value);
        RemovingKeepsLoad(next, next.order, next.values, NoNode);
      }
  }

  lemma CopyingBackKeepsLoad<K, V>(o: Oracle<K, V>)
    requires Loaded(o)
    ensures Loaded(o.(sizes := Copied(|o.order|, o.factor)))
  {
    hide Copied, WithinLoad, CapacityFor;
    CopyingKeepsLoad(|o.order|, o.factor);
  }

  lemma FactorOfLoaded<K, V>(o: Oracle<K, V>)
    requires Loaded(o)
    ensures o.factor >= 0.125
  {
  }

  lemma AssigningKeepsLoad<K, V>(o: Oracle<K, V>, key: K, value: V)
    requires Loaded(o)
    ensures Loaded(Assigned(o, key, value))
  {
    hide Loaded, Added;
    AddingKeepsLoad(o, key, value);
    var next := Added(o, key, value);
    RemovingKeepsLoad(next, next.order, o.values[key := value], next.handle);
  }

  lemma ErasingKeepsLoad<K, V>(o: Oracle<K, V>, key: K, handle: Handle<K, V>)
    requires Loaded(o)
    ensures Loaded(Without(o, key).(handle := handle))
  {
    hide Loaded;
    RemovingKeepsLoad(o, SwappedOut(o.order, key), o.values - {key}, handle);
  }

  lemma {:induction false} FewerAfterSwaps<K>(order: seq<K>, keys: seq<K>)
    ensures |AllSwappedOut(order, keys)| <= |order|
  {
    if keys != [] {
      FewerAfterSwaps(order, keys[..|keys| - 1]);
    }
  }

  /** So the load stays within a fixed maximum over any run. */
  lemma {:induction false} LoadIsKept<K, V>(ops: seq<Op<K, V>>, o: Oracle<K, V>)
    requires Loaded(o) && AllAdmissible(ops, o) && forall i :: 0 <= i < |ops| ==> !ops[i].SetFactor?
    ensures Loaded(After(ops, o))
  {
    hide Loaded, Admissible, Applied;
    if ops != [] {
      var rest := ops[..|ops| - 1];
      forall i | 0 <= i < |rest| ensures Admissible(rest[i], After(rest[..i], o)) {
        assert rest[..i] == ops[..i];
        assert Admissible(ops[i], After(ops[..i], o));
      }
      LoadIsKept(rest, o);
      StepKeepsLoad(ops[|ops| - 1], After(rest, o));
    }
  }

  // ---- what a run leaves in place ------------------------------------------

  /** The node of each key and the bucket array, at one point of a run. */
  datatype Moment<K> = Moment(nodes: map<K, nat>, table: array<Bucket>)

  /** The operation erases, extracts or replaces the element of this key. */
  ghost predicate Discards<K, V>(op: Op<K, V>, o: Oracle<K, V>, key: K) {
    match op
    case EraseKey(k) => k == key
    case EraseFound(k) => k == key
    case EraseRange(first, last) => key in InRange(o.order, first, last)
    case Clear => true
    case CopyBack => true
    case Extract(k) => k == key
    case _ => false
  }

  /** Every element that the operation does not discard keeps its node. */
  ghost predicate Stable<K, V>(op: Op<K, V>, o: Oracle<K, V>, before: map<K, nat>, after: map<K, nat>) {
    forall k :: k in before && !Discards(op, o, k) ==> k in after && after[k] == before[k]
  }

  /** The operation rehashes by itself, growth aside. */
  predicate Rebuilds<K, V>(op: Op<K, V>) {
    op.Rehash? || op.Reserve? || op.CopyBack?
  }

  /** Nodes stay, and so does the bucket array unless the operation rebuilds it or it has to grow. */
  ghost predicate Continues<K, V>(op: Op<K, V>, o: Oracle<K, V>, before: Moment<K>, after: Moment<K>) {
    && Stable(op, o, before.nodes, after.nodes)
    && (!Rebuilds(op) && Applied(op, o).sizes.count == o.sizes.count ==> after.table == before.table)
  }

  /** One moment before each operation and one at the end. */
  ghost predicate Chronicle<K, V>(ops: seq<Op<K, V>>, o: Oracle<K, V>, moments: seq<Moment<K>>) {
    && |moments| == |ops| + 1
    && forall s :: 0 <= s < |ops| ==> Continues(ops[s], After(ops[..s], o), moments[s], moments[s + 1])
  }

  /** Through every step from `i` to `j`, the element of this key is left where it is. */
  ghost predicate Spared<K, V>(ops: seq<Op<K, V>>, o: Oracle<K, V>, i: nat, j: nat, key: K)
    requires i <= j <= |ops|
  {
    forall s :: i <= s < j ==> !Discards(ops[s], After(ops[..s], o), key)
  }

  /** From wherever it is inserted, an element stays at its node until it is discarded. */
  lemma {:induction false} NodesStay<K, V>(ops: seq<Op<K, V>>, o: Oracle<K, V>, moments: seq<Moment<K>>,
                                           i: nat, j: nat, key: K)
    requires Chronicle(ops, o, moments) && i <= j <= |ops|
    requires key in moments[i].nodes && Spared(ops, o, i, j, key)
    ensures key in moments[j].nodes && moments[j].nodes[key] == moments[i].nodes[key]
  {
    hide Applied;
    if i < j {
      NodesStay(ops, o, moments, i, j - 1, key);
      assert Continues(ops[j - 1], After(ops[..j - 1], o), moments[j - 1], moments[j - 1 + 1]);
    }
  }

  /** The operation neither rebuilds the table nor changes the maximum load factor. */
  predicate LeavesPolicy<K, V>(op: Op<K, V>) {
    !Rebuilds(op) && !op.SetFactor?
  }

  /** Without a request to, a table with buckets is not resized while its size stays within the capacity. */
  lemma CapacityServes<K, V>(op: Op<K, V>, o: Oracle<K, V>)
    requires LeavesPolicy(op) && o.sizes.count != 0 && |Applied(op, o).order| <= o.sizes.capacity
    ensures var o' := Applied(op, o); o'.sizes == o.sizes && o'.factor == o.factor
  {
  }

  /** From `i` to `j`, nobody touches the hash policy and at most `limit` elements are there at a time. */
  ghost predicate StaysWithin<K, V>(ops: seq<Op<K, V>>, o: Oracle<K, V>, i: nat, j: nat, limit: nat)
    requires i <= j <= |ops|
  {
    && (forall s :: i <= s < j ==> LeavesPolicy(ops[s]))
    && (forall s :: i <= s <= j ==> |After(ops[..s], o).order| <= limit)
  }

  /** Over any stretch of a run that stays within the capacity, the bucket array is never replaced. */
  lemma {:induction false} TableStays<K, V>(ops: seq<Op<K, V>>, o: Oracle<K, V>, moments: seq<Moment<K>>,
                                            i: nat, j: nat)
    requires Chronicle(ops, o, moments) && i <= j <= |ops|
    requires After(ops[..i], o).sizes.count != 0 && StaysWithin(ops, o, i, j, After(ops[..i], o).sizes.capacity)
    ensures moments[j].table == moments[i].table
    ensures After(ops[..j], o).sizes.count == After(ops[..i], o).sizes.count
    ensures After(ops[..j], o).sizes.capacity == After(ops[..i], o).sizes.capacity
  {
    hide Applied, After, Stable;
    if i < j {
      var before := After(ops[..j - 1], o);
      TableStays(ops, o, moments, i, j - 1);
      AfterNext(ops, o, j - 1);
      assert LeavesPolicy(ops[j - 1]) && |After(ops[..j], o).order| <= before.sizes.capacity;
      CapacityServes(ops[j - 1], before);
      assert Continues(ops[j - 1], before, moments[j - 1], moments[j - 1 + 1]);
    }
  }

  /**
   After `reserve(expected)`, whatever is inserted, erased, extracted or
   cleared, nothing is rehashed while there are at most `expected` elements.
   */
  lemma ReserveIsHonoured<K, V>(ops: seq<Op<K, V>>, o: Oracle<K, V>, moments: seq<Moment<K>>, r: nat, j: nat)
    requires Chronicle(ops, o, moments) && r < j <= |ops| && ops[r].Reserve? && ops[r].expected > 0
    requires |After(ops[..r], o).order| <= ops[r].expected
    requires ReserveIsKept(ops[r].expected, After(ops[..r], o).factor)
    requires forall s :: r < s < j ==> !ops[s].Rehash? && !ops[s].Reserve? && !ops[s].SetFactor? && !ops[s].CopyBack?
    requires forall s :: r < s <= j ==> |After(ops[..s], o).order| <= ops[r].expected
    ensures moments[j].table == moments[r + 1].table
    ensures After(ops[..j], o).sizes.count == CountForElements(ops[r].expected, After(ops[..r], o).factor)
  {
    hide After, ReserveIsKept, CountForElements, Stable;
    var before := After(ops[..r], o);
    ReserveSuffices(ops[r].expected, |before.order|, before.factor);
    AfterNext(ops, o, r);
    TableStays(ops, o, moments, r + 1, j);
  }

  // ---- the container -------------------------------------------------------

  ghost function View<K, V>(t: HashTable<K, V>, handle: Handle<K, V>): (view: Oracle<K, V>)
    requires t.Valid()
    reads t, t.buckets
    ensures |view.order| == |t.iteration|
  {
    Oracle(t.Order(), t.Contents(), handle, t.SizeFields(), t.maxLoadFactor)
  }

  /** One step of the container does what the oracle does. */
  twostate predicate Follows<K, V>(t: HashTable<K, V>, op: Op<K, V>, handle: Handle<K, V>, new handle': Handle<K, V>,
                                   new outcome: Outcome<V>)
    requires old(t.Valid()) && t.Valid()
    reads t, t.buckets
  {
    && View(t, handle') == Applied(op, old(View(t, handle)))
    && outcome == Observed(op, old(View(t, handle)))
    && Stable(op, old(View(t, handle)), old(t.nodeOf), t.nodeOf)
    && (!Rebuilds(op) && t.bucketCount == old(t.bucketCount) ==> t.buckets == old(t.buckets))
    && t.Growable() && t.hash == old(t.hash)
  }

  lemma AdditionHasRoom<K, V>(t: HashTable<K, V>, handle: Handle<K, V>, key: K, value: V)
    requires t.Valid() && t.Growable() && |Added(View(t, handle), key, value).order| <= MAX_SIZE
    ensures t.HasRoomFor(key)
  {
    hide HashTable.Valid, HashTable.Growable, HashTable.Contents, HashTable.Order, HashTable.HasRoomFor;
    t.KeysHaveNodes();
    t.HasRoom(key);
  }

  /** The three ways to remove one element by its key. */
  lemma OneRemoved<K, V>(o: Oracle<K, V>, key: K, nodes: map<K, nat>)
    ensures Applied(EraseKey(key), o) == Without(o, key) == Applied(EraseFound(key), o)
    ensures Applied(Op<K, V>.Extract(key), o)
         == Without(o, key).(handle := if key in o.values then Holding(key, o.values[key]) else NoNode)
    ensures Observed(EraseKey(key), o) == Erased(if key in o.values then 1 else 0)
    ensures Observed(EraseFound(key), o) == Observed(Op<K, V>.Extract(key), o) == Done
    ensures Stable(EraseKey(key), o, nodes, nodes - {key})
    ensures Stable(EraseFound(key), o, nodes, nodes - {key})
    ensures Stable(Op<K, V>.Extract(key), o, nodes, nodes - {key})
  {
  }

  /** Removing a range leaves every other node alone. */
  lemma RangeIsStable<K, V>(o: Oracle<K, V>, first: nat, last: nat, nodes: map<K, nat>)
    ensures Stable(EraseRange(first, last), o, nodes, nodes - (set k | k in InRange(o.order, first, last)))
  {
  }

  // ---- single operations ---------------------------------------------------

  method RunEmplace<K(==), V>(t: HashTable<K, V>, key: K, value: V, ghost handle: Handle<K, V>)
      returns (outcome: Outcome<V>)
    requires t.Valid() && t.Growable() && Admissible(Emplace(key, value), View(t, handle))
    modifies t, t.buckets
    ensures t.Valid() && (t.buckets == old(t.buckets) || fresh(t.buckets))
    ensures Follows(t, Emplace(key, value), handle, handle, outcome)
  {
    hide HashTable.Valid, HashTable.Contents, HashTable.Order, HashTable.HasRoomFor,
         FactorIsSensible, CapacityFor, GrownCount;
    AdditionHasRoom(t, handle, key, value);
    t.KeysHaveNodes();
    var node, inserted := t.EmplaceImpl(key, value);
    t.OrderAfterAdding(key);
    outcome := Inserted(inserted);
  }

  method RunTryEmplace<K(==), V>(t: HashTable<K, V>, key: K, value: V, ghost handle: Handle<K, V>)
      returns (outcome: Outcome<V>)
    requires t.Valid() && t.Growable() && Admissible(TryEmplace(key, value), View(t, handle))
    modifies t, t.buckets
    ensures t.Valid() && (t.buckets == old(t.buckets) || fresh(t.buckets))
    ensures Follows(t, TryEmplace(key, value), handle, handle, outcome)
  {
    hide HashTable.Valid, HashTable.Contents, HashTable.Order, HashTable.HasRoomFor,
         FactorIsSensible, CapacityFor, GrownCount;
    AdditionHasRoom(t, handle, key, value);
    t.KeysHaveNodes();
    var node, inserted := t.TryEmplaceImpl(key, value);
    t.OrderAfterAdding(key);
    outcome := Inserted(inserted);
  }

  method RunInsertOrAssign<K(==), V>(t: HashTable<K, V>, key: K, value: V, ghost handle: Handle<K, V>)
      returns (outcome: Outcome<V>)
    requires t.Valid() && t.Growable() && Admissible(InsertOrAssign(key, value), View(t, handle))
    modifies t, t.buckets
    ensures t.Valid() && (t.buckets == old(t.buckets) || fresh(t.buckets))
    ensures Follows(t, InsertOrAssign(key, value), handle, handle, outcome)
  {
    hide HashTable.Valid, HashTable.Contents, HashTable.Order, HashTable.HasRoomFor,
         FactorIsSensible, CapacityFor, GrownCount;
    AdditionHasRoom(t, handle, key, value);
    t.KeysHaveNodes();
    var node, inserted := t.InsertOrAssignImpl(key, value);
    t.OrderAfterAdding(key);
    outcome := Inserted(inserted);
  }

  method RunStore<K(==), V>(t: HashTable<K, V>, key: K, value: V, default: V, ghost handle: Handle<K, V>)
      returns (outcome: Outcome<V>)
    requires t.Valid() && t.Growable() && Admissible(Store(key, value), View(t, handle))
    modifies t, t.buckets
    ensures t.Valid() && (t.buckets == old(t.buckets) || fresh(t.buckets))
    ensures Follows(t, Store(key, value), handle, handle, outcome)
  {
    hide HashTable.Valid, HashTable.Contents, HashTable.Order, HashTable.HasRoomFor,
         FactorIsSensible, CapacityFor, GrownCount;
    AdditionHasRoom(t, handle, key, value);
    t.KeysHaveNodes();
    var node := UnorderedMap.Store(t, key, value, default);
    t.OrderAfterAdding(key);
    outcome := Done;
  }

  method RunEraseKey<K(==), V>(t: HashTable<K, V>, key: K, ghost handle: Handle<K, V>)
      returns (outcome: Outcome<V>)
    requires t.Valid() && t.Growable() && Admissible(EraseKey(key), View(t, handle))
    modifies t, t.buckets
    ensures t.Valid() && (t.buckets == old(t.buckets) || fresh(t.buckets))
    ensures Follows(t, EraseKey(key), handle, handle, outcome)
  {
    hide HashTable.Valid, HashTable.Contents, HashTable.Order, HashTable.Growable, HashTable.HasRoomFor,
         FactorIsSensible, CapacityFor, GrownCount, Applied, Observed, Stable, SwappedOut, HashTable.Removes;
    t.KeysHaveNodes();
    OneRemoved(View(t, handle), key, t.nodeOf);
    var count := t.EraseKey(key);
    outcome := Erased(count);
  }

  method RunEraseFound<K(==), V>(t: HashTable<K, V>, key: K, ghost handle: Handle<K, V>)
      returns (outcome: Outcome<V>)
    requires t.Valid() && t.Growable() && Admissible(EraseFound(key), View(t, handle))
    modifies t, t.buckets
    ensures t.Valid() && (t.buckets == old(t.buckets) || fresh(t.buckets))
    ensures Follows(t, EraseFound(key), handle, handle, outcome)
  {
    hide HashTable.Valid, HashTable.Contents, HashTable.Order, HashTable.Growable, HashTable.HasRoomFor,
         FactorIsSensible, CapacityFor, GrownCount, Applied, Observed, Stable, SwappedOut, SwapErased;
    t.NothingToRemove(key);
    OneRemoved(View(t, handle), key, t.nodeOf);
    var it := t.Find(key);
    if it != NULL_INDEX {
      var next := t.EraseAt(it);
    }
    outcome := Done;
  }

  method RunEraseRange<K(==), V>(t: HashTable<K, V>, first: nat, last: nat, ghost handle: Handle<K, V>)
      returns (outcome: Outcome<V>)
    requires t.Valid() && t.Growable() && Admissible(EraseRange(first, last), View(t, handle))
    modifies t, t.buckets
    ensures t.Valid() && (t.buckets == old(t.buckets) || fresh(t.buckets))
    ensures Follows(t, EraseRange(first, last), handle, handle, outcome)
  {
    hide HashTable.Valid, HashTable.Contents, HashTable.Order, HashTable.Growable, HashTable.HasRoomFor,
         FactorIsSensible, CapacityFor, GrownCount, AllSwappedOut, Stable;
    RangeIsStable(View(t, handle), first, last, t.nodeOf);
    var end := Clip(last, |t.iteration|);
    var start := Clip(first, end);
    var next := t.EraseRange(t.NodeAt(start), t.NodeAt(end), start, end);
    outcome := Done;
  }

  method RunFind<K(==), V>(t: HashTable<K, V>, key: K, ghost handle: Handle<K, V>)
      returns (outcome: Outcome<V>)
    requires t.Valid() && t.Growable() && Admissible(Op<K, V>.Find(key), View(t, handle))
    modifies t, t.buckets
    ensures t.Valid() && (t.buckets == old(t.buckets) || fresh(t.buckets))
    ensures Follows(t, Op<K, V>.Find(key), handle, handle, outcome)
  {
    hide HashTable.Valid, HashTable.Contents, HashTable.Order, HashTable.Growable, HashTable.HasRoomFor,
         FactorIsSensible, CapacityFor, GrownCount;
    t.KeysHaveNodes();
    var it := t.Find(key);
    if it == NULL_INDEX {
      return Missing;
    }
    var k, value := t.Get(it);
    outcome := Found(value);
  }

  method RunRehash<K(==), V>(t: HashTable<K, V>, requested: nat, ghost handle: Handle<K, V>)
      returns (outcome: Outcome<V>)
    requires t.Valid() && t.Growable() && Admissible(Op<K, V>.Rehash(requested), View(t, handle))
    modifies t, t.buckets
    ensures t.Valid() && (t.buckets == old(t.buckets) || fresh(t.buckets))
    ensures Follows(t, Op<K, V>.Rehash(requested), handle, handle, outcome)
  {
    hide HashTable.Valid, HashTable.Contents, HashTable.Order, HashTable.HasRoomFor,
         FactorIsSensible, CapacityFor, GrownCount, CountForElements, RehashTarget, RehashIsSafe;
    t.Rehash(requested);
    outcome := Done;
  }

  method RunReserve<K(==), V>(t: HashTable<K, V>, expected: nat, ghost handle: Handle<K, V>)
      returns (outcome: Outcome<V>)
    requires t.Valid() && t.Growable() && Admissible(Op<K, V>.Reserve(expected), View(t, handle))
    modifies t, t.buckets
    ensures t.Valid() && (t.buckets == old(t.buckets) || fresh(t.buckets))
    ensures Follows(t, Op<K, V>.Reserve(expected), handle, handle, outcome)
  {
    hide HashTable.Valid, HashTable.Contents, HashTable.Order, HashTable.HasRoomFor,
         FactorIsSensible, CapacityFor, GrownCount, CountForElements, RehashTarget, RehashIsSafe, ReserveIsKept;
    t.Reserve(expected);
    outcome := Done;
  }

  method RunSetFactor<K(==), V>(t: HashTable<K, V>, factor: real, ghost handle: Handle<K, V>)
      returns (outcome: Outcome<V>)
    requires t.Valid() && t.Growable() && Admissible(Op<K, V>.SetFactor(factor), View(t, handle))
    modifies t, t.buckets
    ensures t.Valid() && (t.buckets == old(t.buckets) || fresh(t.buckets))
    ensures Follows(t, Op<K, V>.SetFactor(factor), handle, handle, outcome)
  {
    hide HashTable.Valid, HashTable.Contents, HashTable.Order, HashTable.HasRoomFor,
         FactorIsSensible, CapacityFor, GrownCount;
    t.SetMaxLoadFactor(factor);
    outcome := Done;
  }

  method RunClear<K(==), V>(t: HashTable<K, V>, ghost handle: Handle<K, V>)
      returns (outcome: Outcome<V>)
    requires t.Valid() && t.Growable() && Admissible(Op<K, V>.Clear, View(t, handle))
    modifies t, t.buckets
    ensures t.Valid() && (t.buckets == old(t.buckets) || fresh(t.buckets))
    ensures Follows(t, Op<K, V>.Clear, handle, handle, outcome)
  {
    hide HashTable.Valid, HashTable.Contents, HashTable.Order, HashTable.Growable, HashTable.HasRoomFor,
         FactorIsSensible, CapacityFor, GrownCount;
    t.Clear();
    outcome := Done;
  }

  method RunExtract<K(==), V>(t: HashTable<K, V>, key: K, ghost handle: Handle<K, V>)
      returns (outcome: Outcome<V>, handle': Handle<K, V>)
    requires t.Valid() && t.Growable() && Admissible(Op<K, V>.Extract(key), View(t, handle))
    modifies t, t.buckets
    ensures t.Valid() && (t.buckets == old(t.buckets) || fresh(t.buckets))
    ensures Follows(t, Op<K, V>.Extract(key), handle, handle', outcome)
  {
    hide HashTable.Valid, HashTable.Contents, HashTable.Order, HashTable.Growable, HashTable.HasRoomFor,
         FactorIsSensible, CapacityFor, GrownCount, Applied, Observed, Stable, SwappedOut, HashTable.Removes;
    t.KeysHaveNodes();
    OneRemoved(View(t, handle), key, t.nodeOf);
    handle' := t.Extract(key);
    outcome := Done;
  }

  method RunInsertHandle<K(==), V>(t: HashTable<K, V>, handle: Handle<K, V>)
      returns (outcome: Outcome<V>, handle': Handle<K, V>)
    requires t.Valid() && t.Growable() && Admissible(Op<K, V>.InsertHandle, View(t, handle))
    modifies t, t.buckets
    ensures t.Valid() && (t.buckets == old(t.buckets) || fresh(t.buckets))
    ensures Follows(t, Op<K, V>.InsertHandle, handle, handle', outcome)
  {
    hide HashTable.Valid, HashTable.Contents, HashTable.Order, HashTable.HasRoomFor,
         FactorIsSensible, CapacityFor, GrownCount;
    t.KeysHaveNodes();
    if handle.Holding? {
      AdditionHasRoom(t, handle, handle.key, handle.value);
    }
    var node, inserted;
    node, inserted, handle' := t.InsertNode(handle);
    if handle.Holding? {
      t.OrderAfterAdding(handle.key);
    }
    outcome := Inserted(inserted);
  }

  /** `copy = table; table = copy`: the elements come back in new nodes. */
  method RunCopyBack<K(==), V>(t: HashTable<K, V>, ghost handle: Handle<K, V>)
      returns (outcome: Outcome<V>)
    requires t.Valid() && t.Growable() && Admissible(Op<K, V>.CopyBack, View(t, handle))
    modifies t, t.buckets
    ensures t.Valid() && (t.buckets == old(t.buckets) || fresh(t.buckets))
    ensures Follows(t, Op<K, V>.CopyBack, handle, handle, outcome)
  {
    hide HashTable.Valid, HashTable.Contents, HashTable.Order, HashTable.HasRoomFor,
         LoadCapacity, CapacityFor, GrownCount, Copied;
    var copy := new HashTable<K, V>.CopyOf(t);
    t.CopyAssign(copy);
    outcome := Done;
  }

  // ---- runs ----------------------------------------------------------------

  method Step<K(==), V>(t: HashTable<K, V>, op: Op<K, V>, default: V, handle: Handle<K, V>)
      returns (outcome: Outcome<V>, handle': Handle<K, V>)
    requires t.Valid() && t.Growable() && Admissible(op, View(t, handle))
    modifies t, t.buckets
    ensures t.Valid() && (t.buckets == old(t.buckets) || fresh(t.buckets))
    ensures Follows(t, op, handle, handle', outcome)
  {
    hide HashTable.Valid, HashTable.Contents, HashTable.Order, HashTable.Growable, Admissible, Follows;
    handle' := handle;
    match op
    case Store(key, value) => outcome := RunStore(t, key, value, default, handle);
    case Emplace(key, value) => outcome := RunEmplace(t, key, value, handle);
    case TryEmplace(key, value) => outcome := RunTryEmplace(t, key, value, handle);
    case InsertOrAssign(key, value) => outcome := RunInsertOrAssign(t, key, value, handle);
    case EraseKey(key) => outcome := RunEraseKey(t, key, handle);
    case EraseFound(key) => outcome := RunEraseFound(t, key, handle);
    case EraseRange(first, last) => outcome := RunEraseRange(t, first, last, handle);
    case Find(key) => outcome := RunFind(t, key, handle);
    case Rehash(requested) => outcome := RunRehash(t, requested, handle);
    case Reserve(expected) => outcome := RunReserve(t, expected, handle);
    case SetFactor(factor) => outcome := RunSetFactor(t, factor, handle);
    case Clear => outcome := RunClear(t, handle);
    case Extract(key) => outcome, handle' := RunExtract(t, key, handle);
    case InsertHandle => outcome, handle' := RunInsertHandle(t, handle);
    case CopyBack => outcome := RunCopyBack(t, handle);
  }

  /** Any run of admissible operations: container and oracle agree on every outcome and on the final state. */
  method Run<K(==), V>(t: HashTable<K, V>, ops: seq<Op<K, V>>, default: V, handle: Handle<K, V>)
      returns (outcomes: seq<Outcome<V>>, handle': Handle<K, V>, ghost moments: seq<Moment<K>>)
    requires t.Valid() && t.Growable() && AllAdmissible(ops, View(t, handle))
    modifies t, t.buckets
    ensures t.Valid() && t.Growable() && t.hash == old(t.hash)
    ensures t.buckets == old(t.buckets) || fresh(t.buckets)
    ensures View(t, handle') == After(ops, old(View(t, handle)))
    ensures |outcomes| == |ops|
    ensures forall i :: 0 <= i < |ops| ==> outcomes[i] == Observed(ops[i], After(ops[..i], old(View(t, handle))))
    ensures Chronicle(ops, old(View(t, handle)), moments)
    ensures moments[0] == Moment(old(t.nodeOf), old(t.buckets)) && moments[|ops|] == Moment(t.nodeOf, t.buckets)
  {
    hide HashTable.Valid, HashTable.Contents, HashTable.Order, HashTable.Growable,
         Stable, After, Applied, Observed, Admissible;
    outcomes, handle', moments := [], handle, [Moment(t.nodeOf, t.buckets)];
    ghost var o := View(t, handle);
    AfterNothing(o);
    var i := 0;
    while i < |ops|
      invariant 0 <= i <= |ops| && t.Valid() && t.Growable() && t.hash == old(t.hash)
      invariant t.buckets == old(t.buckets) || fresh(t.buckets)
      invariant View(t, handle') == After(ops[..i], o)
      invariant |outcomes| == i && forall j :: 0 <= j < i ==> outcomes[j] == Observed(ops[j], After(ops[..j], o))
      invariant |moments| == i + 1 && moments[0] == Moment(old(t.nodeOf), old(t.buckets))
      invariant moments[i] == Moment(t.nodeOf, t.buckets)
      invariant forall s :: 0 <= s < i ==> Continues(ops[s], After(ops[..s], o), moments[s], moments[s + 1])
    {
      AfterNext(ops, o, i);
      var outcome;
      outcome, handle' := Step(t, ops[i], default, handle');
      outcomes, moments := outcomes + [outcome], moments + [Moment(t.nodeOf, t.buckets)];
      i := i + 1;
    }
    assert ops[..i] == ops;
  }

  /** Every run from the default-constructed container, whatever its hash. */
  method RunFromEmpty<K(==), V>(hash: K -> Bits.Hash64, residue: (K, V) -> (K, V), ops: seq<Op<K, V>>, default: V)
      returns (t: HashTable<K, V>, outcomes: seq<Outcome<V>>, handle: Handle<K, V>, ghost moments: seq<Moment<K>>)
    requires AllAdmissible(ops, Nothing())
    ensures fresh(t) && fresh(t.buckets) && t.Valid() && t.Growable() && t.hash == hash
    ensures View(t, handle) == After(ops, Nothing())
    ensures |outcomes| == |ops|
    ensures forall i :: 0 <= i < |ops| ==> outcomes[i] == Observed(ops[i], After(ops[..i], Nothing()))
    ensures Chronicle(ops, Nothing(), moments) && moments[|ops|] == Moment(t.nodeOf, t.buckets)
  {
    hide HashTable.Valid, HashTable.Contents, HashTable.Order, After, Observed, Chronicle, Admissible;
    t := new HashTable(hash, residue, 0);
    assert View(t, NoNode) == Nothing();
    outcomes, handle, moments := Run(t, ops, default, NoNode);
  }

  /** Erasing undoes inserting: the words are as if the key had never been there. */
  method EraseUndoesEmplace<K(==), V>(t: HashTable<K, V>, key: K, value: V)
    requires t.Valid() && key !in t.nodeOf && |t.iteration| < MAX_SIZE
    requires t.bucketCount != 0 && |t.iteration| + 1 <= t.maxLoadCapacity
    modifies t, t.buckets
    ensures t.Valid() && t.buckets == old(t.buckets)
    ensures t.Contents() == old(t.Contents()) && t.Order() == old(t.Order())
    ensures t.bucketCount == old(t.bucketCount)
    ensures forall p :: 0 <= p < t.bucketCount ==> t.buckets[..][p].word == old(t.buckets[..])[p].word
  {
    hide HashTable.Valid, HashTable.Contents, HashTable.Order, SwappedOut;
    t.KeysHaveNodes();
    t.OrderListsKeys();
    LastSwappedOut(t.Order(), key);
    AddedAndRemoved(t.Contents(), key, value);
    var node, inserted := t.EmplaceImpl(key, value);
    t.OrderAfterAdding(key);
    var count := t.EraseKey(key);
    t.WordsDependOnKeys();
  }

  /** A table of eight buckets and the default factor is assigned an empty one with a factor of 0.25. */
  method AssignStaleCapacity<K(==), V>(hash: K -> Bits.Hash64, residue: (K, V) -> (K, V)) returns (t: HashTable<K, V>)
    ensures t.Valid() && fresh(t) && fresh(t.buckets) && t.Contents() == map[]
    ensures t.bucketCount == 8 && t.maxLoadFactor == 0.25 && t.maxLoadCapacity == 6 && !t.Capped()
  {
    hide HashTable.Valid, HashTable.Contents, HashTable.Order, LoadCapacity, RoundUp;
    StaleCapacityOverloads();
    EightIsKept();
    t := new HashTable(hash, residue, 8);
    var other := new HashTable(hash, residue, 0);
    other.SetMaxLoadFactor(0.25);
    t.CopyAssign(other);
  }

  /** It then takes six elements, three times what that factor allows. */
  method OverfillAfterAssignment<K(==), V>(hash: K -> Bits.Hash64, residue: (K, V) -> (K, V), elements: seq<(K, V)>)
      returns (t: HashTable<K, V>)
    requires |Listing(elements)| == 6
    ensures fresh(t) && fresh(t.buckets) && t.Valid() && t.bucketCount == 8 && t.maxLoadFactor == 0.25
    ensures t.Contents() == Listing(elements) && !WithinLoad(8, |t.iteration|, 0.25)
  {
    hide HashTable.Valid, HashTable.Contents, HashTable.Order, Listing, LoadCapacity, WithinLoad, UnionSize;
    StaleCapacityOverloads();
    t := AssignStaleCapacity(hash, residue);
    UnionWithNothing(Listing(elements));
    t.InsertRange(elements);
    t.SizeIsCardinality();
  }

  lemma EightIsKept()
    ensures RoundUp(8) == 8
  {
    InitialCount();
    RoundUpIsTableSize(8);
  }
}
