/**
 What the oracle of whole runs is: the meaning of every operation in terms of
 plain maps, sequences and table sizes, and which earlier operation a lookup
 after a run reports.
 */
module Laws {
  import Layout
  import opened Sizing
  import opened Maps
  import opened Engine
  import opened Runs

  // ---- single operations ---------------------------------------------------

  /** Storing and assigning overwrite; emplacing does not. */
  lemma AddingMeans<K, V>(o: Oracle<K, V>, key: K, value: V, op: Op<K, V>)
    requires op in {Store(key, value), InsertOrAssign(key, value), Emplace(key, value), TryEmplace(key, value)}
    ensures Applied(op, o).values
         == if key in o.values && (op.Emplace? || op.TryEmplace?) then o.values else o.values[key := value]
    ensures Applied(op, o).order == if key in o.values then o.order else o.order + [key]
    ensures Applied(op, o).handle == o.handle && Applied(op, o).factor == o.factor
    ensures Applied(op, o).sizes == if key in o.values then o.sizes else Grown(o.sizes, |o.order|, o.factor)
    ensures Observed(op, o) == if op.Store? then Done else Inserted(key !in o.values)
  {
  }

  /** Erasing by key or by iterator removes the key, whose place in the order the last key takes. */
  lemma RemovingMeans<K, V>(o: Oracle<K, V>, key: K, op: Op<K, V>)
    requires op in {EraseKey(key), EraseFound(key), Op<K, V>.Extract(key)}
    ensures Applied(op, o).values == o.values - {key}
    ensures key !in o.order ==> Applied(op, o).order == o.order
    ensures ListsOnce(o.order, o.values.Keys) ==> forall i :: 0 <= i < |o.order| && o.order[i] == key ==>
      Applied(op, o).order == o.order[i := o.order[|o.order| - 1]][..|o.order| - 1]
    ensures Applied(op, o).handle == if !op.Extract? then o.handle
                                     else if key in o.values then Holding(key, o.values[key]) else NoNode
    ensures Applied(op, o).sizes == o.sizes && Applied(op, o).factor == o.factor
    ensures Observed(op, o) == if op.EraseKey? then Erased(if key in o.values then 1 else 0) else Done
  {
    if ListsOnce(o.order, o.values.Keys) {
      forall i | 0 <= i < |o.order| && o.order[i] == key
        ensures Applied(op, o).order == o.order[i := o.order[|o.order| - 1]][..|o.order| - 1]
      {
        OnlyAt(o.order, o.values.Keys, i);
      }
    }
  }

  /** Erasing a range removes the keys at its positions; positions beyond the end stand for the end. */
  lemma RemovingRangeMeans<K, V>(o: Oracle<K, V>, first: nat, last: nat)
    ensures var o' := Applied(Op<K, V>.EraseRange(first, last), o);
      && (forall k :: k in o'.values <==>
            k in o.values && !exists i :: first <= i < last && i < |o.order| && o.order[i] == k)
      && (forall k :: k in o'.values ==> o'.values[k] == o.values[k])
      && o'.handle == o.handle && o'.sizes == o.sizes && o'.factor == o.factor
    ensures first <= last <= |o.order| ==>
      Applied(Op<K, V>.EraseRange(first, last), o).order == AllSwappedOut(o.order, o.order[first..last])
    ensures Observed(Op<K, V>.EraseRange(first, last), o) == Done
  {
    var end := Clip(last, |o.order|);
    var start := Clip(first, end);
    forall k ensures k in InRange(o.order, first, last)
                <==> exists i :: first <= i < last && i < |o.order| && o.order[i] == k
    {
      if k in InRange(o.order, first, last) {
        var j :| 0 <= j < end - start && o.order[start..end][j] == k;
        assert o.order[start + j] == k;
      }
      if i :| first <= i < last && i < |o.order| && o.order[i] == k {
        assert o.order[start..end][i - start] == k;
      }
    }
  }

  /** Clearing leaves no entry, and the handle and the sizes as they are; looking changes nothing. */
  lemma ClearingMeans<K, V>(o: Oracle<K, V>, key: K)
    ensures Applied(Clear, o) == o.(order := [], values := map[]) && Observed(Clear, o) == Done
    ensures Applied(Find(key), o) == o
    ensures Observed(Find(key), o) == if key in o.values then Found(o.values[key]) else Missing
  {
  }

  /** The handle's element goes in unless its key is present, and the handle is then empty. */
  lemma ReinsertingMeans<K, V>(o: Oracle<K, V>)
    ensures var o', fits := Applied(InsertHandle, o), o.handle.Holding? && o.handle.key !in o.values;
      && Observed(InsertHandle, o) == Inserted(fits)
      && (!fits ==> o' == o)
      && (fits ==>
            && o'.values == o.values[o.handle.key := o.handle.value] && o'.order == o.order + [o.handle.key]
            && o'.handle == NoNode && o'.factor == o.factor && o'.sizes == Grown(o.sizes, |o.order|, o.factor))
  {
  }

  /** What the hash policy operations do to the sizes; they leave the entries alone. */
  lemma PolicyMeans<K, V>(o: Oracle<K, V>, number: nat, factor: real)
    ensures var o' := Applied(Rehash(number), o);
      && o' == o.(sizes := o'.sizes) && o'.sizes.capacity == CapacityFor(o'.sizes.count, o.factor)
      && LeastFor(o'.sizes.count, number, |o.order|, o.factor)
    ensures var o' := Applied(Reserve(number), o);
      && o' == o.(sizes := o'.sizes) && o'.sizes.capacity == CapacityFor(o'.sizes.count, o.factor)
      && LeastFor(o'.sizes.count, 0, if |o.order| < number then number else |o.order|, o.factor)
    ensures var o' := Applied(SetFactor(factor), o);
      && o' == o.(sizes := o'.sizes, factor := o'.factor)
      && o'.factor == (if factor > 0.0 then factor else 0.8)
      && o'.sizes.count == o.sizes.count && o'.sizes.capacity == CapacityFor(o.sizes.count, o'.factor)
    ensures Observed(Rehash(number), o) == Observed(Reserve(number), o) == Observed(SetFactor(factor), o) == Done
  {
    hide LeastFor, RehashTarget, CountForElements, CapacityFor;
    RehashTargetIsTheLeast(number, |o.order|, o.factor);
    ReserveTargetIsTheLeast(number, |o.order|, o.factor);
  }

  /** Copying there and back leaves the sizes of a copy, and everything else. */
  lemma CopyingMeans<K, V>(o: Oracle<K, V>)
    ensures Applied(CopyBack, o) == o.(sizes := if o.order == [] then o.sizes else Copied(|o.order|, o.factor))
    ensures Observed(CopyBack, o) == Done
  {
  }

  // ---- order ---------------------------------------------------------------

  lemma {:induction false} AllSwapsList<K>(order: seq<K>, members: set<K>, keys: seq<K>)
    requires ListsOnce(order, members)
    ensures ListsOnce(AllSwappedOut(order, keys), members - (set k | k in keys))
  {
    if keys == [] {
      assert members - (set k | k in keys) == members;
    } else {
      var rest, last := keys[..|keys| - 1], keys[|keys| - 1];
      AllSwapsList(order, members, rest);
      assert keys == rest + [last];
      assert members - (set k | k in keys) == members - (set k | k in rest) - {last};
      OneSwapLists(AllSwappedOut(order, rest), members - (set k | k in rest), last);
    }
  }

  lemma OneSwapLists<K>(order: seq<K>, members: set<K>, key: K)
    requires ListsOnce(order, members)
    ensures ListsOnce(SwappedOut(order, key), members - {key})
  {
    if key in order {
      SwapErasedLists(order, members, IndexOf(order, key));
    } else {
      assert members - {key} == members;
    }
  }

  /** Whatever is done, iterators visit each key of the map exactly once. */
  lemma OrderListsStep<K, V>(op: Op<K, V>, o: Oracle<K, V>)
    requires ListsOnce(o.order, o.values.Keys)
    ensures var o' := Applied(op, o); ListsOnce(o'.order, o'.values.Keys)
  {
    hide ListsOnce, SwappedOut, AllSwappedOut, Grown, Copied, RehashTarget, CapacityFor;
    match op
    case Store(key, value) => AddedLists(o, key, value);
    case InsertOrAssign(key, value) => AddedLists(o, key, value);
    case Emplace(key, value) => AddedLists(o, key, value);
    case TryEmplace(key, value) => AddedLists(o, key, value);
    case EraseKey(key) => RemovedLists(o, key);
    case EraseFound(key) => RemovedLists(o, key);
    case Extract(key) => RemovedLists(o, key);
    case EraseRange(first, last) =>
      var keys := InRange(o.order, first, last);
      AllSwapsList(o.order, o.values.Keys, keys);
      assert (o.values - (set k | k in keys)).Keys == o.values.Keys - (set k | k in keys);
    case InsertHandle =>
      if o.handle.Holding? {
        AddedLists(o, o.handle.key, o.handle.value);
      }
    case Clear => NothingLists(o.(order := [], values := map[]));
    case _ =>
  }

  lemma NothingLists<K, V>(o: Oracle<K, V>)
    requires o.order == [] && o.values == map[]
    ensures ListsOnce(o.order, o.values.Keys)
  {
  }

  lemma AddedLists<K, V>(o: Oracle<K, V>, key: K, value: V)
    requires ListsOnce(o.order, o.values.Keys)
    ensures ListsOnce(Added(o, key, value).order, Added(o, key, value).values.Keys)
    ensures ListsOnce(Assigned(o, key, value).order, Assigned(o, key, value).values.Keys)
  {
    if key in o.values {
      assert o.values[key := value].Keys == o.values.Keys;
    } else {
      assert o.values[key := value].Keys == o.values.Keys + {key};
      AppendLists(o.order, o.values.Keys, key);
    }
  }

  lemma AppendLists<K>(order: seq<K>, members: set<K>, key: K)
    requires ListsOnce(order, members) && key !in members
    ensures ListsOnce(order + [key], members + {key})
  {
  }

  lemma RemovedLists<K, V>(o: Oracle<K, V>, key: K)
    requires ListsOnce(o.order, o.values.Keys)
    ensures ListsOnce(Without(o, key).order, Without(o, key).values.Keys)
  {
    OneSwapLists(o.order, o.values.Keys, key);
    assert (o.values - {key}).Keys == o.values.Keys - {key};
  }

  lemma {:induction false} OrderListsKeys<K, V>(ops: seq<Op<K, V>>, o: Oracle<K, V>)
    requires ListsOnce(o.order, o.values.Keys)
    ensures var o' := After(ops, o); ListsOnce(o'.order, o'.values.Keys)
  {
    if ops != [] {
      OrderListsKeys(ops[..|ops| - 1], o);
      OrderListsStep(ops[|ops| - 1], After(ops[..|ops| - 1], o));
    }
  }

  // ---- lookups after a run -------------------------------------------------

  /** The map has this entry. */
  ghost predicate Has<K, V>(values: map<K, V>, key: K, value: V) {
    key in values && values[key] == value
  }

  /** The operation writes an entry of this key: it overwrites, or adds one where the key is absent. */
  ghost predicate WritesKey<K, V>(op: Op<K, V>, o: Oracle<K, V>, key: K) {
    || ((op.Store? || op.InsertOrAssign?) && op.key == key)
    || (key !in o.values && (op.Emplace? || op.TryEmplace?) && op.key == key)
    || (key !in o.values && op.InsertHandle? && o.handle.Holding? && o.handle.key == key)
  }

  ghost predicate Writes<K, V>(op: Op<K, V>, o: Oracle<K, V>, key: K, value: V) {
    WritesKey(op, o, key) && value == if op.InsertHandle? then o.handle.value else op.value
  }

  /** The operation discards the entry of this key. */
  ghost predicate Drops<K, V>(op: Op<K, V>, o: Oracle<K, V>, key: K) {
    || op == EraseKey(key) || op == EraseFound(key) || op == Extract(key) || op == Clear
    || (op.EraseRange? && exists i :: op.first <= i < op.last && i < |o.order| && o.order[i] == key)
  }

  /** The operation neither writes an entry of this key nor discards it. */
  ghost predicate Ignores<K, V>(op: Op<K, V>, o: Oracle<K, V>, key: K) {
    !Drops(op, o, key) && !WritesKey(op, o, key)
  }

  ghost predicate AllIgnore<K, V>(ops: seq<Op<K, V>>, o: Oracle<K, V>, i: nat, j: nat, key: K)
    requires j <= |ops|
  {
    forall s :: i <= s < j ==> Ignores(ops[s], After(ops[..s], o), key)
  }

  /** An entry is there after an operation that wrote it, or that ignored it when it was there before. */
  lemma StepLookup<K, V>(op: Op<K, V>, o: Oracle<K, V>, key: K, value: V)
    ensures Has(Applied(op, o).values, key, value) <==>
      Writes(op, o, key, value) || (Has(o.values, key, value) && Ignores(op, o, key))
  {
    hide Applied, Has, WritesKey, Writes, Ignores;
    if op.Store? || op.InsertOrAssign? || op.Emplace? || op.TryEmplace? || op.InsertHandle? {
      AddingLookup(op, o, key, value);
    } else if op.EraseKey? || op.EraseFound? || op.Extract? || op.EraseRange? || op.Clear? {
      RemovingLookup(op, o, key, value);
    } else {
      OtherLookup(op, o, key, value);
    }
  }

  lemma AddingLookup<K, V>(op: Op<K, V>, o: Oracle<K, V>, key: K, value: V)
    requires op.Store? || op.InsertOrAssign? || op.Emplace? || op.TryEmplace? || op.InsertHandle?
    ensures Has(Applied(op, o).values, key, value) <==>
      Writes(op, o, key, value) || (Has(o.values, key, value) && Ignores(op, o, key))
  {
    hide Applied, Observed, LeastFor, ListsOnce, Grown, Copied, CapacityFor;
    if op.InsertHandle? {
      ReinsertingMeans(o);
    } else {
      AddingMeans(o, op.key, op.value, op);
    }
  }

  lemma RemovingLookup<K, V>(op: Op<K, V>, o: Oracle<K, V>, key: K, value: V)
    requires op.EraseKey? || op.EraseFound? || op.Extract? || op.EraseRange? || op.Clear?
    ensures Has(Applied(op, o).values, key, value) <==>
      Writes(op, o, key, value) || (Has(o.values, key, value) && Ignores(op, o, key))
  {
    hide Applied, Observed, LeastFor, ListsOnce, Grown, Copied, CapacityFor;
    if op.EraseRange? {
      RemovingRangeMeans(o, op.first, op.last);
    } else if op.Clear? {
      ClearingMeans(o, key);
    } else {
      RemovingMeans(o, op.key, op);
    }
  }

  lemma OtherLookup<K, V>(op: Op<K, V>, o: Oracle<K, V>, key: K, value: V)
    requires op.Find? || op.Rehash? || op.Reserve? || op.SetFactor? || op.CopyBack?
    ensures Has(Applied(op, o).values, key, value) <==>
      Writes(op, o, key, value) || (Has(o.values, key, value) && Ignores(op, o, key))
  {
    hide Applied, Observed, LeastFor, ListsOnce, Grown, Copied, CapacityFor;
    match op
    case Find(k) => ClearingMeans(o, k);
    case Rehash(number) => PolicyMeans(o, number, 0.0);
    case Reserve(number) => PolicyMeans(o, number, 0.0);
    case SetFactor(factor) => PolicyMeans(o, 0, factor);
    case CopyBack => CopyingMeans(o);
  }

  /** Since the operation before position `i`, nothing concerned this key. */
  ghost predicate LastWrite<K, V>(ops: seq<Op<K, V>>, o: Oracle<K, V>, i: nat, key: K, value: V) {
    i < |ops| && Writes(ops[i], After(ops[..i], o), key, value) && AllIgnore(ops, o, i + 1, |ops|, key)
  }

  /**
   After any run, a lookup of a key finds the value that the last operation to
   concern the key wrote, or else the value it had before the run; and nothing
   if that last operation discarded it or there was neither.
   */
  lemma {:induction false} LastWriteIsFound<K, V>(ops: seq<Op<K, V>>, o: Oracle<K, V>, key: K, value: V)
    ensures Observed(Find(key), After(ops, o)) == Found(value) <==>
      || (exists i: nat :: LastWrite(ops, o, i, key, value))
      || (Has(o.values, key, value) && AllIgnore(ops, o, 0, |ops|, key))
    ensures Observed(Find(key), After(ops, o)) == Found(value) <==> Has(After(ops, o).values, key, value)
    ensures Observed(Find(key), After(ops, o)) == Missing <==> key !in After(ops, o).values
  {
    hide Applied, WritesKey, Drops, Ignores;
    Lookups(After(ops, o), key, value);
    if ops != [] {
      var rest, last := ops[..|ops| - 1], ops[|ops| - 1];
      LastWriteIsFound(rest, o, key, value);
      Lookups(After(rest, o), key, value);
      StepLookup(last, After(rest, o), key, value);
      ExtendWrites(ops, o, key, value);
    }
  }

  lemma Lookups<K, V>(o: Oracle<K, V>, key: K, value: V)
    ensures Observed(Find(key), o) == Found(value) <==> Has(o.values, key, value)
    ensures Observed(Find(key), o) == Missing <==> key !in o.values
  {
  }

  /** One more operation at the end of a run. */
  lemma ExtendWrites<K, V>(ops: seq<Op<K, V>>, o: Oracle<K, V>, key: K, value: V)
    requires ops != []
    ensures var rest, n := ops[..|ops| - 1], |ops| - 1;
      && (AllIgnore(ops, o, 0, |ops|, key) <==>
            AllIgnore(rest, o, 0, n, key) && Ignores(ops[n], After(rest, o), key))
      && ((exists i: nat :: LastWrite(ops, o, i, key, value)) <==>
            || Writes(ops[n], After(rest, o), key, value)
            || ((exists i: nat :: LastWrite(rest, o, i, key, value)) && Ignores(ops[n], After(rest, o), key)))
  {
    hide After, WritesKey, Ignores;
    var rest, n := ops[..|ops| - 1], |ops| - 1;
    forall i: nat | i <= n ensures ops[..i] == rest[..i] {
    }
    assert rest[..n] == rest;
    if i: nat :| LastWrite(ops, o, i, key, value) {
      if i < n {
        assert LastWrite(rest, o, i, key, value);
        assert Ignores(ops[n], After(ops[..n], o), key);
      }
    }
    if Writes(ops[n], After(rest, o), key, value) {
      assert LastWrite(ops, o, n, key, value);
    }
    if i: nat :| LastWrite(rest, o, i, key, value) && Ignores(ops[n], After(rest, o), key) {
      assert LastWrite(ops, o, i, key, value);
    }
  }

  // ---- the handle after a run ----------------------------------------------

  /** The operation moves this element into the handle. */
  ghost predicate Takes<K, V>(op: Op<K, V>, o: Oracle<K, V>, key: K, value: V) {
    op == Extract(key) && Has(o.values, key, value)
  }

  /** The operation neither fills the handle anew nor empties it. */
  ghost predicate LeavesHandle<K, V>(op: Op<K, V>, o: Oracle<K, V>) {
    !op.Extract? && !(op.InsertHandle? && o.handle.Holding? && o.handle.key !in o.values)
  }

  ghost predicate AllLeaveHandle<K, V>(ops: seq<Op<K, V>>, o: Oracle<K, V>, i: nat, j: nat)
    requires j <= |ops|
  {
    forall s :: i <= s < j ==> LeavesHandle(ops[s], After(ops[..s], o))
  }

  ghost predicate LastTake<K, V>(ops: seq<Op<K, V>>, o: Oracle<K, V>, i: nat, key: K, value: V) {
    i < |ops| && Takes(ops[i], After(ops[..i], o), key, value) && AllLeaveHandle(ops, o, i + 1, |ops|)
  }

  lemma StepHandle<K, V>(op: Op<K, V>, o: Oracle<K, V>, key: K, value: V)
    ensures Applied(op, o).handle == Holding(key, value) <==>
      Takes(op, o, key, value) || (o.handle == Holding(key, value) && LeavesHandle(op, o))
  {
    hide Applied, Observed, LeastFor, ListsOnce, Grown, Copied, CapacityFor;
    match op
    case Extract(k) => RemovingMeans(o, k, op);
    case EraseKey(k) => RemovingMeans(o, k, op);
    case EraseFound(k) => RemovingMeans(o, k, op);
    case EraseRange(first, last) => RemovingRangeMeans(o, first, last);
    case Store(k, v) => AddingMeans(o, k, v, op);
    case InsertOrAssign(k, v) => AddingMeans(o, k, v, op);
    case Emplace(k, v) => AddingMeans(o, k, v, op);
    case TryEmplace(k, v) => AddingMeans(o, k, v, op);
    case InsertHandle => ReinsertingMeans(o);
    case Find(k) => ClearingMeans(o, k);
    case Clear => ClearingMeans(o, key);
    case Rehash(number) => PolicyMeans(o, number, 0.0);
    case Reserve(number) => PolicyMeans(o, number, 0.0);
    case SetFactor(factor) => PolicyMeans(o, 0, factor);
    case CopyBack => CopyingMeans(o);
  }

  /** After any run, the handle holds what the last extraction took, unless it was inserted since. */
  lemma {:induction false} LastTakeIsHeld<K, V>(ops: seq<Op<K, V>>, o: Oracle<K, V>, key: K, value: V)
    ensures After(ops, o).handle == Holding(key, value) <==>
      || (exists i: nat :: LastTake(ops, o, i, key, value))
      || (o.handle == Holding(key, value) && AllLeaveHandle(ops, o, 0, |ops|))
  {
    hide Applied, Takes, LeavesHandle;
    if ops != [] {
      var rest, last := ops[..|ops| - 1], ops[|ops| - 1];
      LastTakeIsHeld(rest, o, key, value);
      StepHandle(last, After(rest, o), key, value);
      ExtendTakes(ops, o, key, value);
    }
  }

  lemma ExtendTakes<K, V>(ops: seq<Op<K, V>>, o: Oracle<K, V>, key: K, value: V)
    requires ops != []
    ensures var rest, n := ops[..|ops| - 1], |ops| - 1;
      && (AllLeaveHandle(ops, o, 0, |ops|) <==>
            AllLeaveHandle(rest, o, 0, n) && LeavesHandle(ops[n], After(rest, o)))
      && ((exists i: nat :: LastTake(ops, o, i, key, value)) <==>
            || Takes(ops[n], After(rest, o), key, value)
            || ((exists i: nat :: LastTake(rest, o, i, key, value)) && LeavesHandle(ops[n], After(rest, o))))
  {
    hide After, Takes, LeavesHandle;
    var rest, n := ops[..|ops| - 1], |ops| - 1;
    forall i: nat | i <= n ensures ops[..i] == rest[..i] {
    }
    assert rest[..n] == rest;
    if i: nat :| LastTake(ops, o, i, key, value) {
      if i < n {
        assert LastTake(rest, o, i, key, value);
        assert LeavesHandle(ops[n], After(ops[..n], o));
      }
    }
    if Takes(ops[n], After(rest, o), key, value) {
      assert LastTake(ops, o, n, key, value);
    }
    if i: nat :| LastTake(rest, o, i, key, value) && LeavesHandle(ops[n], After(rest, o)) {
      assert LastTake(ops, o, i, key, value);
    }
  }

  // ---- nodes and load ------------------------------------------------------

  /** Only elements that leave the map, or are copied back, are given up. */
  lemma DiscardedIsGone<K, V>(op: Op<K, V>, o: Oracle<K, V>, key: K)
    requires Discards(op, o, key) && !op.CopyBack?
    ensures key !in Applied(op, o).values
  {
  }

  /** As long as a key stays in the map and nothing is copied back, its element stays at its node. */
  lemma NodesStayWhilePresent<K, V>(ops: seq<Op<K, V>>, o: Oracle<K, V>, moments: seq<Moment<K>>,
                                    i: nat, j: nat, key: K)
    requires Chronicle(ops, o, moments) && i <= j <= |ops| && key in moments[i].nodes
    requires forall s :: i <= s <= j ==> key in After(ops[..s], o).values
    requires forall s :: i <= s < j ==> !ops[s].CopyBack?
    ensures key in moments[j].nodes && moments[j].nodes[key] == moments[i].nodes[key]
  {
    hide Applied, Discards;
    forall s | i <= s < j ensures !Discards(ops[s], After(ops[..s], o), key) {
      AfterNext(ops, o, s);
      assert key in After(ops[..s + 1], o).values;
      if Discards(ops[s], After(ops[..s], o), key) {
        DiscardedIsGone(ops[s], After(ops[..s], o), key);
      }
    }
    NodesStay(ops, o, moments, i, j, key);
  }

  /** The load within the maximum, in numbers: `size / buckets <= factor`, with an empty bucket left. */
  lemma LoadedMeans<K, V>(o: Oracle<K, V>)
    requires Loaded(o)
    ensures |o.order| as real <= o.sizes.count as real * o.factor
    ensures if o.sizes.count == 0 then o.order == [] else |o.order| < o.sizes.count
  {
    hide LoadCapacity;
    if o.sizes.count != 0 {
      WithinCapacityMeans(o.sizes.count, |o.order|, o.factor);
    }
  }

  lemma {:induction false} FactorStays<K, V>(ops: seq<Op<K, V>>, o: Oracle<K, V>)
    requires forall i :: 0 <= i < |ops| ==> !ops[i].SetFactor?
    ensures After(ops, o).factor == o.factor
  {
    if ops != [] {
      FactorStays(ops[..|ops| - 1], o);
    }
  }

  /** From the default-constructed container, no run takes the load above the default maximum of 0.8. */
  lemma DefaultLoadIsKept<K, V>(ops: seq<Op<K, V>>)
    requires AllAdmissible(ops, Nothing()) && forall i :: 0 <= i < |ops| ==> !ops[i].SetFactor?
    ensures var o := After(ops, Nothing());
      && |o.order| as real <= o.sizes.count as real * 0.8
      && if o.sizes.count == 0 then o.order == [] else |o.order| < o.sizes.count
  {
    hide Applied, After, Admissible;
    var start: Oracle<K, V> := Nothing();
    assert Loaded(start);
    LoadIsKept(ops, start);
    FactorStays(ops, start);
    LoadedMeans(After(ops, start));
  }

  /** Below the limit on sizes, everything but a change of policy is admissible. */
  lemma EverydayIsAdmissible<K, V>(op: Op<K, V>, o: Oracle<K, V>)
    requires |o.order| < Layout.MAX_SIZE && !op.Rehash? && !op.Reserve? && !op.SetFactor?
    ensures Admissible(op, o)
  {
    if op.EraseRange? {
      FewerAfterSwaps(o.order, InRange(o.order, op.first, op.last));
    }
  }
}
