/** How many elements the 24-bit distance field of a bucket word can serve. */
module Width {
  import opened Bits
  import opened Layout
  import opened Canonical

  /** A search of `t` from this home bucket keeps its running word within 32 bits. */
  ghost predicate SearchFits(t: Table, tag: Tag, target: int) {
    var s := Search(t.b, 256 + tag.fingerprint, tag.home, target);
    s.CanEnd(t.gap) && s.NeverWraps(t.gap)
  }

  /** A table of this shape, and a search it may be asked to carry out. */
  ghost predicate MayBeAsked(t: Table, size: nat, count: nat, tag: Tag, target: int) {
    && t.Valid() && |t.slots| == size && |t.b| == count
    && tag.home < count && tag.fingerprint < 256
    && (target in t.slots ==> t.tags[target] == tag)
  }

  function Numbers(size: nat): (numbers: set<nat>)
    ensures |numbers| == size && forall x: nat :: x in numbers <==> x < size
  {
    if size == 0 then {} else Numbers(size - 1) + {size - 1}
  }

  /** All nodes share home 0 and fingerprint 0, and fill the first `size` buckets. */
  function Pile(size: nat, count: nat): Table
    requires size < count
  {
    Table(seq(count, p requires 0 <= p < count => if p < size then Bucket(256 * (p + 1), p) else EMPTY),
          map x | x in Numbers(size) :: Tag(0, 0), map x | x in Numbers(size) :: x, size)
  }

  /** The first `size` buckets hold such nodes, and the others are empty, whatever node they name. */
  ghost predicate PiledUp(b: seq<Bucket>, size: nat) {
    && size < |b|
    && (forall p :: 0 <= p < size ==> b[p] == Bucket(256 * (p + 1), p))
    && (forall p :: size <= p < |b| ==> b[p].word == 0)
  }

  lemma PiledUpIsGood(b: seq<Bucket>, size: nat)
    requires PiledUp(b, size)
    ensures var t := Pile(size, |b|); Good(b, t.tags, t.slots, size) && |t.slots| == size
  {
    var t := Pile(size, |b|);
    forall p | 0 <= p < |b| ensures SettledAt(b, t.tags, t.slots, size, p) && OrderedAt(b, p) {
    }
    forall x | x in t.slots ensures HeldAt(b, t.slots, x) {
    }
    assert t.slots.Keys == Numbers(size);
  }

  lemma PileIsValid(size: nat, count: nat)
    requires size < count
    ensures Pile(size, count).Valid() && |Pile(size, count).slots| == size && |Pile(size, count).b| == count
  {
    hide Good;
    PiledUpIsGood(Pile(size, count).b, size);
  }

  /** Searching the pile for one more key of its kind runs past all of it. */
  lemma {:induction false} PileOverflows(size: nat, count: nat, index: nat)
    requires MAX_SIZE < size < count && index < size
    ensures var s := Search(Pile(size, count).b, 256 * (index + 1), index, -1);
      s.CanEnd(size) && !s.NeverWraps(size)
    decreases size - index
  {
    if index + 1 < size {
      PileOverflows(size, count, index + 1);
    }
  }

  /** The words suffice for every table and every search exactly up to `MAX_SIZE` elements. */
  lemma WordsSufficeExactly(size: nat, count: nat)
    requires size < count
    ensures size <= MAX_SIZE <==> forall t: Table, tag: Tag, target: int ::
              MayBeAsked(t, size, count, tag, target) ==> SearchFits(t, tag, target)
  {
    if size <= MAX_SIZE {
      forall t: Table, tag: Tag, target: int | MayBeAsked(t, size, count, tag, target)
        ensures SearchFits(t, tag, target)
      {
        HomeSearch(t.b, t.tags, t.slots, t.gap, tag, target);
      }
    } else {
      PileIsValid(size, count);
      PileOverflows(size, count, 0);
      assert MayBeAsked(Pile(size, count), size, count, Tag(0, 0), -1);
      assert !SearchFits(Pile(size, count), Tag(0, 0), -1);
    }
  }

  /** The running word of the code, `steps` buckets from home, for fingerprint 0. */
  function RunningWord(steps: nat): nat {
    if steps == 0 then 256 else Wrap32(RunningWord(steps - 1) + 256)
  }

  lemma {:induction false} RunningWordUpTo(steps: nat)
    requires steps <= MAX_SIZE
    ensures RunningWord(steps) == 256 * (steps + 1)
  {
    if steps > 0 {
      RunningWordUpTo(steps - 1);
    }
  }

  lemma RunningWordWraps()
    ensures RunningWord(MAX_SIZE + 1) == 0
  {
    hide RunningWord;
    RunningWordUpTo(MAX_SIZE);
    OneStepMore(MAX_SIZE);
    assert Wrap32(0x1_0000_0000) == 0;
  }

  lemma OneStepMore(steps: nat)
    ensures RunningWord(steps + 1) == Wrap32(RunningWord(steps) + 256)
  {
  }

  /** The placing loop with its 32-bit word, whether or not that wraps. */
  function Stored(c: Carry, gap: nat): seq<Bucket>
    requires c.CanLand(gap)
    decreases |c.b| - Rel(c.index, gap, |c.b|)
  {
    if c.b[c.index].word == 0 then c.b[c.index := Bucket(c.word, c.node)]
    else Stored(c.Step().(word := Wrap32(c.Step().word)), gap)
  }

  /** Without wrapping, that is the placing proved correct. */
  lemma {:induction false} StoredIsLanded(c: Carry, gap: nat)
    requires c.CanLand(gap) && c.NeverWraps(gap)
    ensures Stored(c, gap) == c.Landed(gap)
    decreases |c.b| - Rel(c.index, gap, |c.b|)
  {
    if c.b[c.index].word != 0 {
      StoredIsLanded(c.Step(), gap);
    }
  }

  /** One more node of their kind passes all nodes of the pile, and its word becomes 0 behind them. */
  lemma {:induction false} PileIsPassed(b: seq<Bucket>, size: nat, index: nat, node: nat)
    requires size == MAX_SIZE + 1 && PiledUp(b, size) && index <= size
    ensures Stored(Carry(b, RunningWord(index), index, node), size) == b[size := Bucket(0, node)]
    decreases size - index
  {
    if index == size {
      RunningWordWraps();
    } else {
      RunningWordUpTo(index);
      PileIsPassed(b, size, index + 1, node);
      OneStepMore(index);
    }
  }

  /**
   A search for another key of that tag agrees with the word of every node in
   the pile, and then with the word 0 of the empty bucket behind them.
   */
  lemma WrappedSearchMeetsEmpty(b: seq<Bucket>)
    requires PiledUp(b, MAX_SIZE + 1)
    ensures forall i: nat :: i <= MAX_SIZE ==> RunningWord(i) == b[i].word != 0
    ensures RunningWord(MAX_SIZE + 1) == b[MAX_SIZE + 1].word == 0
  {
    hide RunningWord;
    forall i: nat | i <= MAX_SIZE ensures RunningWord(i) == b[i].word != 0 {
      RunningWordUpTo(i);
    }
    RunningWordWraps();
  }

  /**
   With 2^24 - 1 elements of one tag in the table, placing one more steals no
   bucket and stores the word 0: every bucket counts as empty or occupied as
   before, and no occupied one holds the new node.  Its key is lost.
   */
  lemma OneTooManyIsLost(b: seq<Bucket>, node: nat)
    requires PiledUp(b, MAX_SIZE + 1) && node > MAX_SIZE
    ensures var t, stored := Pile(MAX_SIZE + 1, |b|), Stored(HomeCarry(b, node, Tag(0, 0)), MAX_SIZE + 1);
      && Good(b, t.tags, t.slots, MAX_SIZE + 1) && |t.slots| == MAX_SIZE + 1
      && |stored| == |b|
      && (forall p :: 0 <= p < |b| ==> stored[p].word == b[p].word)
      && (forall p :: 0 <= p < |b| && stored[p].word != 0 ==> stored[p].node != node)
  {
    hide Good, Stored, Pile;
    PiledUpIsGood(b, MAX_SIZE + 1);
    PileIsPassed(b, MAX_SIZE + 1, 0, node);
  }
}
