/**
 The Robin Hood index table as a value: what a well-formed bucket array is, and
 what each single step of placing, finding and erasing does to it.

 A gap is an empty bucket.  Going round the circle from just behind a gap, no
 occupant lies before its home, so `Rel` (the circular distance from the gap)
 turns displacements into plain differences.
 */
module Layout {
  import opened Bits

  /** Up to this many elements, no 32-bit word ever wraps. */
  const MAX_SIZE: nat := 0xFF_FFFE

  const NULL_INDEX: nat := 0xFFFF_FFFF

  /** `word` is 256 times the probe distance plus the fingerprint; 0 means empty. */
  datatype Bucket = Bucket(word: nat, node: nat)

  const EMPTY := Bucket(0, NULL_INDEX)

  /** What a node's hash decides: its home bucket and its 8-bit fingerprint. */
  datatype Tag = Tag(home: nat, fingerprint: nat)

  function Next(index: nat, count: nat): nat {
    if index + 1 == count then 0 else index + 1
  }

  function Previous(index: nat, count: nat): int {
    if index == 0 then count - 1 else index - 1
  }

  /** Circular distance from just behind `gap` to `index`. */
  function Rel(index: nat, gap: nat, count: nat): int {
    if index > gap then index - gap - 1 else index - gap - 1 + count
  }

  /** The word of a node with this tag that sits (or would sit) at `index`. */
  function WordAt(index: nat, tag: Tag, gap: nat, count: nat): int {
    256 * (Rel(index, gap, count) - Rel(tag.home, gap, count) + 1) + tag.fingerprint
  }

  /** `word` is the exact displacement word at `index` of something tagged `tag`. */
  ghost predicate Fits(word: nat, index: nat, tag: Tag, gap: nat, count: nat) {
    && tag.home < count && tag.fingerprint < 256
    && Rel(tag.home, gap, count) <= Rel(index, gap, count)
    && word == WordAt(index, tag, gap, count)
  }

  /** A word that has been displaced is at most one distance unit above its predecessor's. */
  ghost predicate Ordered(word: nat, before: nat) {
    word >= 512 ==> word <= before + 256
  }

  ghost predicate OrderedAt(b: seq<Bucket>, index: nat) {
    index < |b| && Ordered(b[index].word, b[Previous(index, |b|)].word)
  }

  /** The resident of this bucket, if any, is recorded there and has the exact word. */
  ghost predicate SettledAt(b: seq<Bucket>, tags: map<nat, Tag>, slots: map<nat, nat>, gap: nat, index: nat) {
    index < |b| && (b[index].word != 0 ==>
      && b[index].node in slots && slots[b[index].node] == index
      && b[index].node in tags && Fits(b[index].word, index, tags[b[index].node], gap, |b|))
  }

  /** This node is held by the bucket recorded for it. */
  ghost predicate HeldAt(b: seq<Bucket>, slots: map<nat, nat>, node: nat) {
    node in slots && slots[node] < |b| && b[slots[node]].word != 0 && b[slots[node]].node == node
  }

  /**
   The bucket array `b` holds exactly the nodes of `slots`, each at the slot
   recorded there, with an exact word, and the words are ordered; `gap` is empty.
   */
  ghost predicate Good(b: seq<Bucket>, tags: map<nat, Tag>, slots: map<nat, nat>, gap: nat) {
    && gap < |b| && b[gap].word == 0
    && slots.Keys <= tags.Keys
    && (forall p :: 0 <= p < |b| ==> SettledAt(b, tags, slots, gap, p))
    && (forall x :: x in slots ==> HeldAt(b, slots, x))
    && (forall p :: 0 <= p < |b| ==> OrderedAt(b, p))
  }

  /** A word for `tag` that has been carried to `index`, past occupied buckets only. */
  ghost predicate Carried(b: seq<Bucket>, word: nat, index: nat, tag: Tag, gap: nat) {
    && index < |b|
    && Fits(word, index, tag, gap, |b|)
    && Ordered(word, b[Previous(index, |b|)].word)
  }

  // ---- runs ----------------------------------------------------------------

  /** Walking back from a carried word, residents fall by at most one unit a step. */
  lemma {:induction false} RunBehind(b: seq<Bucket>, tags: map<nat, Tag>, slots: map<nat, nat>, gap: nat,
                                     word: nat, index: nat, tag: Tag, at: nat)
    requires Good(b, tags, slots, gap)
    requires Carried(b, word, index, tag, gap)
    requires at < |b|
    requires Rel(tag.home, gap, |b|) <= Rel(at, gap, |b|) < Rel(index, gap, |b|)
    ensures b[at].word >= WordAt(at, tag, gap, |b|)
    decreases Rel(index, gap, |b|) - Rel(at, gap, |b|)
  {
    var after := Next(at, |b|);
    if after != index {
      RunBehind(b, tags, slots, gap, word, index, tag, after);
    }
    assert Previous(after, |b|) == at;
    assert OrderedAt(b, after) && SettledAt(b, tags, slots, gap, after);
  }

  /** A resident is itself carried to where it sits. */
  lemma ResidentIsCarried(b: seq<Bucket>, tags: map<nat, Tag>, slots: map<nat, nat>, gap: nat, index: nat)
    requires Good(b, tags, slots, gap)
    requires index < |b| && b[index].word != 0
    ensures b[index].node in slots && slots[b[index].node] == index && b[index].node in tags
    ensures Carried(b, b[index].word, index, tags[b[index].node], gap)
  {
    assert OrderedAt(b, index) && SettledAt(b, tags, slots, gap, index);
  }

  /** No other gap lies on a carried word's way, so any gap may serve as the origin. */
  lemma ChangeOriginOfCarried(b: seq<Bucket>, tags: map<nat, Tag>, slots: map<nat, nat>, gap: nat, other: nat,
                              word: nat, index: nat, tag: Tag)
    requires Good(b, tags, slots, gap)
    requires Carried(b, word, index, tag, gap)
    requires other < |b| && b[other].word == 0 && other != index
    ensures Carried(b, word, index, tag, other)
  {
    var n := |b|;
    if Rel(tag.home, gap, n) <= Rel(other, gap, n) < Rel(index, gap, n) {
      RunBehind(b, tags, slots, gap, word, index, tag, other);
      assert false;
    }
  }

  lemma ChangeOrigin(b: seq<Bucket>, tags: map<nat, Tag>, slots: map<nat, nat>, gap: nat, other: nat)
    requires Good(b, tags, slots, gap)
    requires other < |b| && b[other].word == 0
    ensures Good(b, tags, slots, other)
  {
    forall p | 0 <= p < |b| ensures SettledAt(b, tags, slots, other, p) {
      assert SettledAt(b, tags, slots, gap, p);
      if b[p].word != 0 {
        ResidentIsCarried(b, tags, slots, gap, p);
        ChangeOriginOfCarried(b, tags, slots, gap, other, b[p].word, p, tags[b[p].node]);
      }
    }
  }

  /** In a word, the distance is one more than the circular displacement from home. */
  lemma WordMeaning(b: seq<Bucket>, tags: map<nat, Tag>, slots: map<nat, nat>, gap: nat, node: nat)
    requires Good(b, tags, slots, gap) && node in slots
    ensures slots[node] < |b| && b[slots[node]].node == node && node in tags && tags[node].home < |b|
    ensures b[slots[node]].word
         == 256 * ((slots[node] + |b| - tags[node].home) % |b| + 1) + tags[node].fingerprint
  {
    assert HeldAt(b, slots, node) && SettledAt(b, tags, slots, gap, slots[node]);
    var n, displacement := |b|, Rel(slots[node], gap, |b|) - Rel(tags[node].home, gap, |b|);
    assert displacement == slots[node] - tags[node].home || displacement == slots[node] - tags[node].home + n;
    CircularDistance(slots[node] + n - tags[node].home, displacement, n);
  }

  lemma CircularDistance(difference: nat, displacement: nat, count: nat)
    requires displacement < count && (difference == displacement || difference == displacement + count)
    ensures difference % count == displacement
  {
    ModUnique(difference, count, if difference == displacement then 0 else 1, displacement);
  }

  /** Nodes outside the table may be tagged in any way. */
  lemma Retag(b: seq<Bucket>, tags: map<nat, Tag>, slots: map<nat, nat>, gap: nat, retagged: map<nat, Tag>)
    requires Good(b, tags, slots, gap)
    requires slots.Keys <= retagged.Keys
    requires forall x :: x in slots ==> retagged[x] == tags[x]
    ensures Good(b, retagged, slots, gap)
  {
    forall p | 0 <= p < |b| ensures SettledAt(b, retagged, slots, gap, p) {
      assert SettledAt(b, tags, slots, gap, p);
    }
  }

  // ---- counting ------------------------------------------------------------

  ghost predicate Resident(b: seq<Bucket>, slots: map<nat, nat>, index: nat) {
    index < |b| && b[index].word != 0 && b[index].node in slots && slots[b[index].node] == index
  }

  /** Occupied buckets hold different nodes, so there are no more of them than nodes. */
  lemma {:induction false} AtMostOneEach(b: seq<Bucket>, slots: map<nat, nat>, occupied: set<nat>)
    requires forall p :: p in occupied ==> Resident(b, slots, p)
    ensures |occupied| <= |slots|
    decreases |occupied|
  {
    if occupied == {} {
    } else {
      var p :| p in occupied;
      var rest := slots - {b[p].node};
      assert slots.Keys == rest.Keys + {b[p].node};
      AtMostOneEach(b, rest, occupied - {p});
    }
  }

  /** Each node has a bucket of its own, and the gap belongs to none. */
  lemma NodesFit(b: seq<Bucket>, tags: map<nat, Tag>, slots: map<nat, nat>, gap: nat)
    requires Good(b, tags, slots, gap)
    ensures |slots| < |b|
  {
    var n := |b|;
    var others := Arc(0, n - 1, gap, n);
    CardinalityOfArc(0, n - 1, gap, n);
    forall x | x in slots.Keys ensures slots[x] in others {
      assert HeldAt(b, slots, x) && slots[x] != gap;
    }
    forall x, y | x in slots && y in slots && x != y ensures slots[x] != slots[y] {
      assert HeldAt(b, slots, x) && HeldAt(b, slots, y);
    }
    DistinctSlots(slots, others, slots.Keys);
  }

  lemma {:induction false} DistinctSlots(slots: map<nat, nat>, places: set<nat>, nodes: set<nat>)
    requires forall x :: x in nodes ==> x in slots && slots[x] in places
    requires forall x, y :: x in nodes && y in nodes && x != y ==> slots[x] != slots[y]
    ensures |nodes| <= |places|
    decreases |nodes|
  {
    if nodes == {} {
    } else {
      var x :| x in nodes;
      DistinctSlots(slots, places - {slots[x]}, nodes - {x});
    }
  }

  /** With two or more buckets to spare there is a second gap. */
  lemma SecondGap(b: seq<Bucket>, tags: map<nat, Tag>, slots: map<nat, nat>, gap: nat) returns (other: nat)
    requires Good(b, tags, slots, gap)
    requires |slots| + 1 < |b|
    ensures other < |b| && other != gap && b[other].word == 0
  {
    if p: nat :| p < |b| && p != gap && b[p].word == 0 {
      other := p;
    } else {
      var n := |b|;
      var others := Arc(0, n - 1, gap, n);
      CardinalityOfArc(0, n - 1, gap, n);
      forall p | p in others ensures Resident(b, slots, p) {
        assert SettledAt(b, tags, slots, gap, p);
      }
      AtMostOneEach(b, slots, others);
      assert false;
    }
  }

  /** The buckets whose distance from behind `gap` is at least `low` and below `high`. */
  function Arc(low: int, high: int, gap: nat, count: nat): set<nat> {
    set p: nat | p < count && low <= Rel(p, gap, count) < high
  }

  lemma {:induction false} CardinalityOfArc(low: nat, high: nat, gap: nat, count: nat)
    requires low <= high <= count && gap < count
    ensures |Arc(low, high, gap, count)| == high - low
    decreases high
  {
    if low == high {
      assert Arc(low, high, gap, count) == {};
    } else {
      CardinalityOfArc(low, high - 1, gap, count);
      var last: nat := if high - 1 + gap + 1 < count then high - 1 + gap + 1 else high - 1 + gap + 1 - count;
      assert Arc(low, high, gap, count) == Arc(low, high - 1, gap, count) + {last};
    }
  }

  /** A carried distance is at most one more than the number of nodes in the table. */
  lemma CarriedBound(b: seq<Bucket>, tags: map<nat, Tag>, slots: map<nat, nat>, gap: nat,
                     word: nat, index: nat, tag: Tag)
    requires Good(b, tags, slots, gap)
    requires Carried(b, word, index, tag, gap)
    ensures 256 <= word < 256 * (|slots| + 2)
  {
    var n := |b|;
    var low, high := Rel(tag.home, gap, n), Rel(index, gap, n);
    var behind := Arc(low, high, gap, n);
    CardinalityOfArc(low, high, gap, n);
    forall p | p in behind ensures Resident(b, slots, p) {
      RunBehind(b, tags, slots, gap, word, index, tag, p);
      assert SettledAt(b, tags, slots, gap, p);
    }
    AtMostOneEach(b, slots, behind);
  }

  /** A stored distance never exceeds the number of nodes in the table. */
  lemma StoredBound(b: seq<Bucket>, tags: map<nat, Tag>, slots: map<nat, nat>, gap: nat, index: nat)
    requires Good(b, tags, slots, gap)
    requires index < |b| && b[index].word != 0
    ensures 256 <= b[index].word < 256 * (|slots| + 1)
  {
    ResidentIsCarried(b, tags, slots, gap, index);
    var n, tag := |b|, tags[b[index].node];
    var low, high := Rel(tag.home, gap, n), Rel(index, gap, n) + 1;
    var upTo := Arc(low, high, gap, n);
    CardinalityOfArc(low, high, gap, n);
    forall p | p in upTo ensures Resident(b, slots, p) {
      if p != index {
        RunBehind(b, tags, slots, gap, b[index].word, index, tag, p);
      }
      assert SettledAt(b, tags, slots, gap, p);
    }
    AtMostOneEach(b, slots, upTo);
  }

  // ---- placing -------------------------------------------------------------

  /** `node`, carried with `word`, is about to be offered bucket `index`. */
  ghost predicate Placing(b: seq<Bucket>, tags: map<nat, Tag>, slots: map<nat, nat>, gap: nat,
                          word: nat, index: nat, node: nat) {
    && Good(b, tags, slots, gap)
    && node in tags && node !in slots
    && Carried(b, word, index, tags[node], gap)
  }

  lemma StartPlacing(b: seq<Bucket>, tags: map<nat, Tag>, slots: map<nat, nat>, gap: nat, tag: Tag)
    requires Good(b, tags, slots, gap)
    requires tag.home < |b| && tag.fingerprint < 256
    ensures Carried(b, 256 + tag.fingerprint, tag.home, tag, gap)
  {
  }

  /** Passing a resident whose word is at least the carried one. */
  lemma CarryOn(b: seq<Bucket>, tags: map<nat, Tag>, slots: map<nat, nat>, gap: nat,
                word: nat, index: nat, tag: Tag)
    requires Good(b, tags, slots, gap)
    requires Carried(b, word, index, tag, gap)
    requires word <= b[index].word
    ensures Carried(b, word + 256, Next(index, |b|), tag, gap)
    ensures Rel(Next(index, |b|), gap, |b|) == Rel(index, gap, |b|) + 1
  {
  }

  function AfterSteal(slots: map<nat, nat>, robbed: nat, node: nat, index: nat): map<nat, nat> {
    (slots - {robbed})[node := index]
  }

  /** One step further on, a 32-bit word still holds the exact displacement. */
  lemma CarryOnWithoutWrapping(b: seq<Bucket>, tags: map<nat, Tag>, slots: map<nat, nat>, gap: nat,
                               word: nat, index: nat, tag: Tag)
    requires Good(b, tags, slots, gap) && |slots| <= MAX_SIZE
    requires Carried(b, word, index, tag, gap)
    requires word <= b[index].word
    ensures Wrap32(word + 256) == word + 256
    ensures Carried(b, Wrap32(word + 256), Next(index, |b|), tag, gap)
    ensures Rel(Next(index, |b|), gap, |b|) == Rel(index, gap, |b|) + 1
    ensures Rel(index, gap, |b|) < |b| - 1
  {
    CarryOn(b, tags, slots, gap, word, index, tag);
    CarriedBound(b, tags, slots, gap, word + 256, Next(index, |b|), tag);
  }

  /** Taking the bucket of a resident with a smaller word; the resident is carried on. */
  lemma Steal(b: seq<Bucket>, tags: map<nat, Tag>, slots: map<nat, nat>, gap: nat,
              word: nat, index: nat, node: nat)
    requires Placing(b, tags, slots, gap, word, index, node) && |slots| <= MAX_SIZE
    requires word > b[index].word != 0
    ensures Wrap32(b[index].word + 256) == b[index].word + 256
    ensures Placing(b[index := Bucket(word, node)], tags, AfterSteal(slots, b[index].node, node, index), gap,
                    Wrap32(b[index].word + 256), Next(index, |b|), b[index].node)
    ensures Exchanged(slots, AfterSteal(slots, b[index].node, node, index), node, b[index].node)
    ensures |AfterSteal(slots, b[index].node, node, index)| == |slots|
  {
    hide Good, Placing, Carried, Exchanged, AfterSteal;
    PlacingParts(b, tags, slots, gap, word, index, node);
    var robbed, b' := b[index].node, b[index := Bucket(word, node)];
    var slots' := AfterSteal(slots, robbed, node, index);
    ResidentIsCarried(b, tags, slots, gap, index);
    StealKeys(slots, robbed, node, index);
    StealIsGood(b, tags, slots, gap, word, index, node);
    RobbedIsCarried(b, tags, slots, gap, word, index, node);
    CarriedBound(b', tags, slots', gap, b[index].word + 256, Next(index, |b|), tags[robbed]);
    PlacingWhole(b', tags, slots', gap, b[index].word + 256, Next(index, |b|), robbed);
  }

  lemma PlacingParts(b: seq<Bucket>, tags: map<nat, Tag>, slots: map<nat, nat>, gap: nat,
                     word: nat, index: nat, node: nat)
    requires Placing(b, tags, slots, gap, word, index, node)
    ensures Good(b, tags, slots, gap) && node in tags && node !in slots
    ensures Carried(b, word, index, tags[node], gap)
    ensures index < |b| && gap < |b| && b[gap].word == 0
    ensures Rel(index, gap, |b|) < |b|
  {
  }

  lemma PlacingWhole(b: seq<Bucket>, tags: map<nat, Tag>, slots: map<nat, nat>, gap: nat,
                     word: nat, index: nat, node: nat)
    requires Good(b, tags, slots, gap) && node in tags && node !in slots
    requires Carried(b, word, index, tags[node], gap)
    ensures Placing(b, tags, slots, gap, word, index, node)
  {
  }

  lemma StealIsGood(b: seq<Bucket>, tags: map<nat, Tag>, slots: map<nat, nat>, gap: nat,
                    word: nat, index: nat, node: nat)
    requires Placing(b, tags, slots, gap, word, index, node)
    requires word > b[index].word != 0
    ensures Good(b[index := Bucket(word, node)], tags, AfterSteal(slots, b[index].node, node, index), gap)
  {
    hide SettledAt, HeldAt, OrderedAt, AfterSteal;
    ResidentIsCarried(b, tags, slots, gap, index);
    StealKeys(slots, b[index].node, node, index);
    StealOccupants(b, tags, slots, gap, word, index, node);
    StealOrder(b, tags, slots, gap, word, index, node);
  }

  lemma RobbedIsCarried(b: seq<Bucket>, tags: map<nat, Tag>, slots: map<nat, nat>, gap: nat,
                        word: nat, index: nat, node: nat)
    requires Placing(b, tags, slots, gap, word, index, node)
    requires word > b[index].word != 0
    ensures b[index].node in tags
    ensures Carried(b[index := Bucket(word, node)], b[index].word + 256, Next(index, |b|), tags[b[index].node], gap)
    ensures Rel(Next(index, |b|), gap, |b|) == Rel(index, gap, |b|) + 1
  {
    ResidentIsCarried(b, tags, slots, gap, index);
  }

  /** `after` has node `came` where `before` had node `went`. */
  ghost predicate Exchanged(before: map<nat, nat>, after: map<nat, nat>, came: nat, went: nat) {
    after.Keys + {went} == before.Keys + {came} && |after| == |before|
  }

  /** `after` has one more node than `before`. */
  ghost predicate Joined(before: map<nat, nat>, after: map<nat, nat>, node: nat) {
    after.Keys == before.Keys + {node} && |after| == |before| + 1
  }

  lemma JoinedKeys(before: map<nat, nat>, after: map<nat, nat>, node: nat)
    requires Joined(before, after, node)
    ensures after.Keys == before.Keys + {node}
  {
  }

  lemma ExchangedThenJoined(first: map<nat, nat>, second: map<nat, nat>, third: map<nat, nat>, came: nat, went: nat)
    requires Exchanged(first, second, came, went) && Joined(second, third, went)
    ensures Joined(first, third, came)
  {
  }

  lemma StealKeys(slots: map<nat, nat>, robbed: nat, node: nat, index: nat)
    requires robbed in slots && node !in slots
    ensures AfterSteal(slots, robbed, node, index).Keys <= slots.Keys + {node}
    ensures AfterSteal(slots, robbed, node, index).Keys == slots.Keys - {robbed} + {node}
    ensures robbed !in AfterSteal(slots, robbed, node, index)
    ensures |AfterSteal(slots, robbed, node, index)| == |slots|
    ensures Exchanged(slots, AfterSteal(slots, robbed, node, index), node, robbed)
  {
    assert AfterSteal(slots, robbed, node, index).Keys == slots.Keys - {robbed} + {node};
  }

  lemma StealOccupants(b: seq<Bucket>, tags: map<nat, Tag>, slots: map<nat, nat>, gap: nat,
                       word: nat, index: nat, node: nat)
    requires Placing(b, tags, slots, gap, word, index, node)
    requires word > b[index].word != 0
    ensures var b', slots' := b[index := Bucket(word, node)], AfterSteal(slots, b[index].node, node, index);
      && (forall p :: 0 <= p < |b'| ==> SettledAt(b', tags, slots', gap, p))
      && (forall x :: x in slots' ==> HeldAt(b', slots', x))
  {
    var b', slots' := b[index := Bucket(word, node)], AfterSteal(slots, b[index].node, node, index);
    assert SettledAt(b, tags, slots, gap, index);
    forall p | 0 <= p < |b| ensures SettledAt(b', tags, slots', gap, p) {
      assert SettledAt(b, tags, slots, gap, p);
      assert p != index && b[p].word != 0 ==> b[p].node != b[index].node && b[p].node != node;
    }
    forall x | x in slots' ensures HeldAt(b', slots', x) {
      assert x != node ==> HeldAt(b, slots, x);
    }
  }

  lemma StealOrder(b: seq<Bucket>, tags: map<nat, Tag>, slots: map<nat, nat>, gap: nat,
                   word: nat, index: nat, node: nat)
    requires Placing(b, tags, slots, gap, word, index, node)
    requires word > b[index].word != 0
    ensures var b' := b[index := Bucket(word, node)]; forall p :: 0 <= p < |b'| ==> OrderedAt(b', p)
  {
    var b' := b[index := Bucket(word, node)];
    forall p | 0 <= p < |b'| ensures OrderedAt(b', p) {
      assert OrderedAt(b, p);
    }
  }

  /** Settling in an empty bucket, with some other bucket left as the gap. */
  lemma Settle(b: seq<Bucket>, tags: map<nat, Tag>, slots: map<nat, nat>, gap: nat,
               word: nat, index: nat, node: nat, other: nat)
    requires Placing(b, tags, slots, gap, word, index, node)
    requires b[index].word == 0
    requires other < |b| && other != index && b[other].word == 0
    ensures Good(b[index := Bucket(word, node)], tags, slots[node := index], other)
  {
    ChangeOrigin(b, tags, slots, gap, other);
    ChangeOriginOfCarried(b, tags, slots, gap, other, word, index, tags[node]);
    var b' := b[index := Bucket(word, node)];
    forall p | 0 <= p < |b'| ensures OrderedAt(b', p) {
      assert OrderedAt(b, p);
    }
    var slots' := slots[node := index];
    forall p | 0 <= p < |b'| ensures SettledAt(b', tags, slots', other, p) {
      assert SettledAt(b, tags, slots, other, p);
    }
    forall x | x in slots' ensures HeldAt(b', slots', x) {
      assert x != node ==> HeldAt(b, slots, x);
    }
  }

  /** A node and its word, offered to bucket `index`. */
  datatype Carry = Carry(b: seq<Bucket>, word: nat, index: nat, node: nat) {

    predicate CanLand(gap: nat) {
      index < |b| && gap < |b| && b[gap].word == 0
    }

    /** One round of the placing loop. */
    function Step(): Carry
      requires index < |b|
    {
      var resident := b[index];
      if word > resident.word then
        Carry(b[index := Bucket(word, node)], resident.word + 256, Next(index, |b|), resident.node)
      else
        Carry(b, word + 256, Next(index, |b|), node)
    }

    /** The table once the last carried node has reached an empty bucket. */
    function Landed(gap: nat): seq<Bucket>
      requires CanLand(gap)
      decreases |b| - Rel(index, gap, |b|)
    {
      if b[index].word == 0 then b[index := Bucket(word, node)] else Step().Landed(gap)
    }

    /** No word carried on the way exceeds 32 bits. */
    predicate NeverWraps(gap: nat)
      requires CanLand(gap)
      decreases |b| - Rel(index, gap, |b|)
    {
      b[index].word != 0 ==> Wrap32(Step().word) == Step().word && Step().NeverWraps(gap)
    }
  }

  lemma PlaceStep(c: Carry, tags: map<nat, Tag>, slots: map<nat, nat>, gap: nat) returns (moved: map<nat, nat>)
    requires Placing(c.b, tags, slots, gap, c.word, c.index, c.node) && |slots| <= MAX_SIZE
    requires c.b[c.index].word != 0
    ensures Placing(c.Step().b, tags, moved, gap, c.Step().word, c.Step().index, c.Step().node)
    ensures Exchanged(slots, moved, c.node, c.Step().node) && |moved| == |slots|
    ensures Wrap32(c.Step().word) == c.Step().word
  {
    hide Good, Carried, Placing, AfterSteal, Exchanged;
    PlacingParts(c.b, tags, slots, gap, c.word, c.index, c.node);
    var resident := c.b[c.index];
    if c.word > resident.word {
      Steal(c.b, tags, slots, gap, c.word, c.index, c.node);
      moved := AfterSteal(slots, resident.node, c.node, c.index);
    } else {
      CarryOnWithoutWrapping(c.b, tags, slots, gap, c.word, c.index, tags[c.node]);
      PlacingWhole(c.b, tags, slots, gap, c.word + 256, Next(c.index, |c.b|), c.node);
      ExchangedWithItself(slots, c.node);
      moved := slots;
    }
  }

  lemma ExchangedWithItself(slots: map<nat, nat>, node: nat)
    ensures Exchanged(slots, slots, node, node)
  {
  }

  lemma SettleHere(c: Carry, tags: map<nat, Tag>, slots: map<nat, nat>, gap: nat)
    returns (slots': map<nat, nat>, gap': nat)
    requires Placing(c.b, tags, slots, gap, c.word, c.index, c.node)
    requires |slots| + 1 < |c.b| && c.b[c.index].word == 0
    ensures Good(c.b[c.index := Bucket(c.word, c.node)], tags, slots', gap')
    ensures Joined(slots, slots', c.node)
  {
    var other := SecondGap(c.b, tags, slots, gap);
    gap' := if c.index == gap then other else gap;
    slots' := slots[c.node := c.index];
    assert slots'.Keys == slots.Keys + {c.node};
    Settle(c.b, tags, slots, gap, c.word, c.index, c.node, gap');
  }

  /** Placing keeps every resident, adds the node, never wraps a word and leaves a gap. */
  lemma {:induction false} LandedIsGood(c: Carry, tags: map<nat, Tag>, slots: map<nat, nat>, gap: nat)
    returns (slots': map<nat, nat>, gap': nat)
    requires Placing(c.b, tags, slots, gap, c.word, c.index, c.node)
    requires |slots| <= MAX_SIZE && |slots| + 1 < |c.b|
    ensures c.CanLand(gap) && c.NeverWraps(gap)
    ensures Good(c.Landed(gap), tags, slots', gap')
    ensures Joined(slots, slots', c.node)
    decreases |c.b| - Rel(c.index, gap, |c.b|)
  {
    hide Good, Carried, Placing, Joined;
    PlacingParts(c.b, tags, slots, gap, c.word, c.index, c.node);
    if c.b[c.index].word == 0 {
      slots', gap' := SettleHere(c, tags, slots, gap);
    } else {
      var moved := PlaceStep(c, tags, slots, gap);
      hide Exchanged;
      PlacingParts(c.Step().b, tags, moved, gap, c.Step().word, c.Step().index, c.Step().node);
      slots', gap' := LandedIsGood(c.Step(), tags, moved, gap);
      ExchangedThenJoined(slots, moved, slots', c.node, c.Step().node);
    }
  }

  /** An absent node with this tag can be placed from its home bucket. */
  ghost predicate Placeable(b: seq<Bucket>, tags: map<nat, Tag>, slots: map<nat, nat>, gap: nat, node: nat, tag: Tag) {
    && Good(b, tags, slots, gap)
    && |slots| <= MAX_SIZE && |slots| + 1 < |b|
    && node in tags && node !in slots && tags[node] == tag
    && tag.home < |b| && tag.fingerprint < 256
  }

  function HomeCarry(b: seq<Bucket>, node: nat, tag: Tag): Carry {
    Carry(b, 256 + tag.fingerprint, tag.home, node)
  }

  /** Offering an absent node to its home bucket places it. */
  lemma HomePlacement(b: seq<Bucket>, tags: map<nat, Tag>, slots: map<nat, nat>, gap: nat, node: nat, tag: Tag)
    returns (slots': map<nat, nat>, gap': nat)
    requires Placeable(b, tags, slots, gap, node, tag)
    ensures HomeCarry(b, node, tag).CanLand(gap) && HomeCarry(b, node, tag).NeverWraps(gap)
    ensures Good(HomeCarry(b, node, tag).Landed(gap), tags, slots', gap')
    ensures Joined(slots, slots', node)
  {
    StartPlacing(b, tags, slots, gap, tag);
    slots', gap' := LandedIsGood(HomeCarry(b, node, tag), tags, slots, gap);
  }

  // ---- finding -------------------------------------------------------------

  /** A node with the searched tag at or beyond `index` keeps the search going. */
  lemma StillAhead(b: seq<Bucket>, tags: map<nat, Tag>, slots: map<nat, nat>, gap: nat,
                   word: nat, index: nat, tag: Tag, node: nat)
    requires Good(b, tags, slots, gap)
    requires Carried(b, word, index, tag, gap)
    requires node in slots && tags[node] == tag
    requires Rel(slots[node], gap, |b|) >= Rel(index, gap, |b|)
    ensures b[index].word >= word
    ensures slots[node] == index ==> b[index].word == word && b[index].node == node
    ensures slots[node] != index ==> Rel(slots[node], gap, |b|) >= Rel(index, gap, |b|) + 1
  {
    assert HeldAt(b, slots, node);
    ResidentIsCarried(b, tags, slots, gap, slots[node]);
    if slots[node] != index {
      RunBehind(b, tags, slots, gap, b[slots[node]].word, slots[node], tag, index);
    }
  }

  /** A search that starts at the home bucket has not passed the node. */
  lemma HomeIsBehind(b: seq<Bucket>, tags: map<nat, Tag>, slots: map<nat, nat>, gap: nat, node: nat)
    requires Good(b, tags, slots, gap) && node in slots
    ensures Rel(tags[node].home, gap, |b|) <= Rel(slots[node], gap, |b|)
  {
    assert HeldAt(b, slots, node) && SettledAt(b, tags, slots, gap, slots[node]);
  }

  /** A search for `target` that has arrived at `index` with the running `word`. */
  datatype Search = Search(b: seq<Bucket>, word: nat, index: nat, target: int) {

    predicate CanEnd(gap: nat) {
      index < |b| && gap < |b| && b[gap].word == 0 && word > 0
    }

    predicate Hits()
      requires index < |b|
    {
      word == b[index].word && b[index].node == target
    }

    predicate GivesUp()
      requires index < |b|
    {
      word > b[index].word
    }

    function Step(): Search {
      Search(b, word + 256, Next(index, |b|), target)
    }

    /** The bucket that is found, or the bucket count. */
    function Found(gap: nat): nat
      requires CanEnd(gap)
      decreases |b| - Rel(index, gap, |b|)
    {
      if Hits() then index else if GivesUp() then |b| else Step().Found(gap)
    }

    /** The running word never exceeds 32 bits. */
    predicate NeverWraps(gap: nat)
      requires CanEnd(gap)
      decreases |b| - Rel(index, gap, |b|)
    {
      !Hits() && !GivesUp() ==> Wrap32(word + 256) == word + 256 && Step().NeverWraps(gap)
    }
  }

  /** A search finds the bucket of its target if the target is in the table, and nothing else. */
  lemma {:induction false} FoundIsRight(s: Search, tags: map<nat, Tag>, slots: map<nat, nat>, gap: nat, tag: Tag)
    requires Good(s.b, tags, slots, gap) && |slots| <= MAX_SIZE
    requires Carried(s.b, s.word, s.index, tag, gap)
    requires s.target in slots ==>
      tags[s.target] == tag && Rel(slots[s.target], gap, |s.b|) >= Rel(s.index, gap, |s.b|)
    ensures s.CanEnd(gap) && s.NeverWraps(gap)
    ensures s.Found(gap) == if s.target in slots then slots[s.target] else |s.b|
    decreases |s.b| - Rel(s.index, gap, |s.b|)
  {
    CarriedBound(s.b, tags, slots, gap, s.word, s.index, tag);
    if s.target in slots {
      StillAhead(s.b, tags, slots, gap, s.word, s.index, tag, s.target);
    }
    if s.Hits() {
      ResidentIsCarried(s.b, tags, slots, gap, s.index);
    } else if !s.GivesUp() {
      CarryOnWithoutWrapping(s.b, tags, slots, gap, s.word, s.index, tag);
      FoundIsRight(s.Step(), tags, slots, gap, tag);
    }
  }

  // ---- erasing -------------------------------------------------------------

  /** Like `Good`, but bucket `hole` is vacant although its old content is still there. */
  ghost predicate Hole(b: seq<Bucket>, tags: map<nat, Tag>, slots: map<nat, nat>, gap: nat, hole: nat) {
    && gap < |b| && b[gap].word == 0
    && hole < |b| && hole != gap
    && slots.Keys <= tags.Keys
    && (forall p :: 0 <= p < |b| && p != hole ==> SettledAt(b, tags, slots, gap, p))
    && (forall x :: x in slots ==> HeldAt(b, slots, x) && slots[x] != hole)
    && (forall p :: 0 <= p < |b| && p != hole && p != Next(hole, |b|) ==> OrderedAt(b, p))
    && (b[Next(hole, |b|)].word >= 512 ==>
          Ordered(b[Next(hole, |b|)].word - 256, b[Previous(hole, |b|)].word))
  }

  function Without(slots: map<nat, nat>, node: nat): map<nat, nat> {
    slots - {node}
  }

  lemma OpenHole(b: seq<Bucket>, tags: map<nat, Tag>, slots: map<nat, nat>, gap: nat, hole: nat)
    requires Good(b, tags, slots, gap)
    requires hole < |b| && b[hole].word != 0
    ensures Hole(b, tags, Without(slots, b[hole].node), gap, hole)
  {
    assert Previous(Next(hole, |b|), |b|) == hole;
    assert OrderedAt(b, Next(hole, |b|)) && OrderedAt(b, hole) && SettledAt(b, tags, slots, gap, hole);
    var slots' := Without(slots, b[hole].node);
    forall p | 0 <= p < |b| && p != hole ensures SettledAt(b, tags, slots', gap, p) {
      assert SettledAt(b, tags, slots, gap, p);
      assert b[p].word != 0 ==> b[p].node != b[hole].node;
    }
    forall x | x in slots' ensures HeldAt(b, slots', x) && slots'[x] != hole {
      assert HeldAt(b, slots, x);
    }
  }

  function Pulled(b: seq<Bucket>, hole: nat): seq<Bucket>
    requires hole < |b| && b[Next(hole, |b|)].word >= 256
  {
    var next := Next(hole, |b|);
    b[hole := Bucket(b[next].word - 256, b[next].node)]
  }

  /** Pulling the displaced occupant behind the hole one bucket closer to its home. */
  lemma ShiftBack(b: seq<Bucket>, tags: map<nat, Tag>, slots: map<nat, nat>, gap: nat, hole: nat)
    requires Hole(b, tags, slots, gap, hole)
    requires b[Next(hole, |b|)].word >= 512
    ensures Hole(Pulled(b, hole), tags, slots[b[Next(hole, |b|)].node := hole], gap, Next(hole, |b|))
    ensures b[Next(hole, |b|)].node in slots
    ensures slots[b[Next(hole, |b|)].node := hole].Keys == slots.Keys
    ensures Rel(Next(hole, |b|), gap, |b|) == Rel(hole, gap, |b|) + 1
  {
    var n, next := |b|, Next(hole, |b|);
    assert next != hole && next != gap && Rel(next, gap, n) == Rel(hole, gap, n) + 1;
    assert SettledAt(b, tags, slots, gap, next);
    PulledOccupants(b, tags, slots, gap, hole);
    PulledOrder(b, tags, slots, gap, hole);
  }

  lemma PulledOccupants(b: seq<Bucket>, tags: map<nat, Tag>, slots: map<nat, nat>, gap: nat, hole: nat)
    requires Hole(b, tags, slots, gap, hole)
    requires b[Next(hole, |b|)].word >= 512
    requires Rel(Next(hole, |b|), gap, |b|) == Rel(hole, gap, |b|) + 1
    ensures var b', next := Pulled(b, hole), Next(hole, |b|);
      var slots' := slots[b[next].node := hole];
      && (forall p :: 0 <= p < |b| && p != next ==> SettledAt(b', tags, slots', gap, p))
      && (forall x :: x in slots' ==> HeldAt(b', slots', x) && slots'[x] != next)
  {
    var b', next := Pulled(b, hole), Next(hole, |b|);
    var slots' := slots[b[next].node := hole];
    assert SettledAt(b, tags, slots, gap, next);
    forall p | 0 <= p < |b| && p != next ensures SettledAt(b', tags, slots', gap, p) {
      assert p != hole ==> SettledAt(b, tags, slots, gap, p);
    }
    forall x | x in slots' ensures HeldAt(b', slots', x) && slots'[x] != next {
      assert x != b[next].node ==> HeldAt(b, slots, x);
    }
  }

  lemma PulledOrder(b: seq<Bucket>, tags: map<nat, Tag>, slots: map<nat, nat>, gap: nat, hole: nat)
    requires Hole(b, tags, slots, gap, hole)
    requires b[Next(hole, |b|)].word >= 512
    requires Rel(Next(hole, |b|), gap, |b|) == Rel(hole, gap, |b|) + 1
    ensures var n := |b|;
      var b', next := Pulled(b, hole), Next(hole, n);
      && (forall p :: 0 <= p < n && p != next && p != Next(next, n) ==> OrderedAt(b', p))
      && (b'[Next(next, n)].word >= 512 ==>
            Ordered(b'[Next(next, n)].word - 256, b'[Previous(next, n)].word))
  {
    var n, next := |b|, Next(hole, |b|);
    var b', after := Pulled(b, hole), Next(next, n);
    assert after != hole && Previous(after, n) == next && Previous(next, n) == hole;
    assert OrderedAt(b, after);
    forall p | 0 <= p < n && p != next && p != after ensures OrderedAt(b', p) {
      if p != hole {
        assert OrderedAt(b, p) && Previous(p, n) != hole;
      }
    }
  }

  /** Clearing the hole once nothing displaced follows it. */
  lemma CloseHole(b: seq<Bucket>, tags: map<nat, Tag>, slots: map<nat, nat>, gap: nat, hole: nat)
    requires Hole(b, tags, slots, gap, hole)
    requires b[Next(hole, |b|)].word < 512
    ensures Good(b[hole := EMPTY], tags, slots, gap)
  {
    var b' := b[hole := EMPTY];
    forall p | 0 <= p < |b| ensures OrderedAt(b', p) {
      assert p != hole && p != Next(hole, |b|) ==> OrderedAt(b, p);
    }
    forall p | 0 <= p < |b| ensures SettledAt(b', tags, slots, gap, p) {
      assert p != hole ==> SettledAt(b, tags, slots, gap, p);
    }
    forall x | x in slots ensures HeldAt(b', slots, x) {
      assert HeldAt(b, slots, x);
    }
  }

  /** The table once the displaced occupants behind the hole have been pulled back. */
  function Closed(b: seq<Bucket>, hole: nat, gap: nat): seq<Bucket>
    requires hole < |b| && gap < |b| && hole != gap && b[gap].word == 0
    decreases |b| - Rel(hole, gap, |b|)
  {
    if b[Next(hole, |b|)].word < 512 then b[hole := EMPTY]
    else Closed(Pulled(b, hole), Next(hole, |b|), gap)
  }

  lemma {:induction false} ClosedIsGood(b: seq<Bucket>, tags: map<nat, Tag>, slots: map<nat, nat>, gap: nat, hole: nat)
    returns (slots': map<nat, nat>)
    requires Hole(b, tags, slots, gap, hole)
    ensures Good(Closed(b, hole, gap), tags, slots', gap)
    ensures slots'.Keys == slots.Keys
    decreases |b| - Rel(hole, gap, |b|)
  {
    if b[Next(hole, |b|)].word < 512 {
      CloseHole(b, tags, slots, gap, hole);
      slots' := slots;
    } else {
      ShiftBack(b, tags, slots, gap, hole);
      slots' := ClosedIsGood(Pulled(b, hole), tags, slots[b[Next(hole, |b|)].node := hole], gap, Next(hole, |b|));
    }
  }

  /** Backward-shift deletion removes the one node and keeps every other. */
  lemma ErasedIsGood(b: seq<Bucket>, tags: map<nat, Tag>, slots: map<nat, nat>, gap: nat, slot: nat)
    returns (slots': map<nat, nat>)
    requires Good(b, tags, slots, gap)
    requires slot < |b| && b[slot].word != 0
    ensures slot != gap && b[slot].node in slots
    ensures Good(Closed(b, slot, gap), tags, slots', gap)
    ensures slots'.Keys == slots.Keys - {b[slot].node}
  {
    ResidentIsCarried(b, tags, slots, gap, slot);
    OpenHole(b, tags, slots, gap, slot);
    slots' := ClosedIsGood(b, tags, Without(slots, b[slot].node), gap, slot);
  }

  /** A search from the home bucket finds the target exactly when it is in the table. */
  lemma HomeSearch(b: seq<Bucket>, tags: map<nat, Tag>, slots: map<nat, nat>, gap: nat, tag: Tag, target: int)
    requires Good(b, tags, slots, gap) && |slots| <= MAX_SIZE
    requires tag.home < |b| && tag.fingerprint < 256
    requires target in slots ==> tags[target] == tag
    ensures var s := Search(b, 256 + tag.fingerprint, tag.home, target);
      && s.CanEnd(gap) && s.NeverWraps(gap)
      && s.Found(gap) == (if target in slots then slots[target] else |b|)
      && (target in slots ==> HeldAt(b, slots, target))
  {
    StartPlacing(b, tags, slots, gap, tag);
    if target in slots {
      HomeIsBehind(b, tags, slots, gap, target);
      assert HeldAt(b, slots, target);
    }
    FoundIsRight(Search(b, 256 + tag.fingerprint, tag.home, target), tags, slots, gap, tag);
  }

  /** A table of empty buckets. */
  lemma BlankIsGood(b: seq<Bucket>, tags: map<nat, Tag>)
    requires |b| > 0 && forall p :: 0 <= p < |b| ==> b[p].word == 0
    ensures Good(b, tags, map[], 0)
  {
    forall p | 0 <= p < |b| ensures OrderedAt(b, p) && SettledAt(b, tags, map[], 0, p) {
    }
  }
}
