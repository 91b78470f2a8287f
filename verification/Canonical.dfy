/**
 History independence: the words of a well-formed index table are decided by
 the tags of its nodes alone, whatever the order of insertions and erasures.
 Only the node indices of nodes with equal tags may be permuted.
 */
module Canonical {
  import opened Layout

  /** A well-formed index table together with its ghost bookkeeping. */
  datatype Table = Table(b: seq<Bucket>, tags: map<nat, Tag>, slots: map<nat, nat>, gap: nat) {
    ghost predicate Valid() {
      Good(b, tags, slots, gap)
    }
  }

  /** `there` sends each node of `left` to a node of `right` with the same tag, and `back` undoes it. */
  ghost predicate Embeds(left: Table, right: Table, there: map<nat, nat>, back: map<nat, nat>) {
    && left.slots.Keys <= left.tags.Keys && right.slots.Keys <= right.tags.Keys
    && forall x :: x in left.slots ==>
         x in there && there[x] in right.slots && right.tags[there[x]] == left.tags[x]
         && there[x] in back && back[there[x]] == x
  }

  /** The nearest gap behind an occupied bucket, with only occupied buckets in between. */
  lemma {:induction false} NearestGap(t: Table, at: nat) returns (gap: nat)
    requires t.Valid() && at < |t.b| && t.b[at].word != 0
    ensures gap < |t.b| && t.b[gap].word == 0
    ensures forall p :: 0 <= p < |t.b| && Rel(p, gap, |t.b|) <= Rel(at, gap, |t.b|) ==> t.b[p].word != 0
    decreases Rel(at, t.gap, |t.b|)
  {
    var n := |t.b|;
    var before := Previous(at, n);
    if t.b[before].word == 0 {
      gap := before;
      forall p | 0 <= p < n && Rel(p, gap, n) <= Rel(at, gap, n) ensures p == at {
      }
    } else {
      gap := NearestGap(t, before);
      assert Rel(at, gap, n) == Rel(before, gap, n) + 1;
      forall p | 0 <= p < n && Rel(p, gap, n) <= Rel(at, gap, n) ensures t.b[p].word != 0 {
        if Rel(p, gap, n) > Rel(before, gap, n) {
          assert p == at;
        }
      }
    }
  }

  /** Where the twin of the resident of bucket `p` sits. */
  ghost function TwinSlot(left: Table, right: Table, there: map<nat, nat>, p: nat): int {
    if p < |left.b| && left.b[p].node in there && there[left.b[p].node] in right.slots
    then right.slots[there[left.b[p].node]] else -1
  }

  /** More residents than buckets their twins could sit in: impossible. */
  lemma TwinsNeedRoom(left: Table, right: Table, there: map<nat, nat>, back: map<nat, nat>,
                      places: set<nat>, room: set<nat>)
    requires left.Valid() && right.Valid() && Embeds(left, right, there, back)
    requires forall p :: p in places ==> p < |left.b| && left.b[p].word != 0 && TwinSlot(left, right, there, p) in room
    ensures |places| <= |room|
  {
    var where := map p | p in places :: TwinSlot(left, right, there, p);
    forall p, q | p in places && q in places && p != q ensures where[p] != where[q] {
      var x, y := left.b[p].node, left.b[q].node;
      ResidentIsCarried(left.b, left.tags, left.slots, left.gap, p);
      ResidentIsCarried(left.b, left.tags, left.slots, left.gap, q);
      assert HeldAt(right.b, right.slots, there[x]) && HeldAt(right.b, right.slots, there[y]);
    }
    DistinctSlots(where, room, places);
  }

  /** A gap of one table is a gap of every table with as many nodes per tag. */
  lemma GapIsShared(left: Table, right: Table, there: map<nat, nat>, back: map<nat, nat>)
    requires left.Valid() && right.Valid() && |left.b| == |right.b| && Embeds(left, right, there, back)
    ensures left.b[right.gap].word == 0
  {
    if left.b[right.gap].word != 0 {
      var start := NearestGap(left, right.gap);
      ChangeOrigin(left.b, left.tags, left.slots, left.gap, start);
      RunIsBroken(left.(gap := start), right, there, back);
      assert false;
    }
  }

  /**
   The buckets from behind a gap of `left` up to a gap of `right` are not all
   occupied: their residents' twins would have one bucket less to sit in.
   */
  lemma RunIsBroken(left: Table, right: Table, there: map<nat, nat>, back: map<nat, nat>)
    requires left.Valid() && right.Valid() && |left.b| == |right.b| && Embeds(left, right, there, back)
    ensures exists p :: 0 <= p < |left.b| && Rel(p, left.gap, |left.b|) <= Rel(right.gap, left.gap, |left.b|)
              && left.b[p].word == 0
  {
    var n, e, start := |left.b|, right.gap, left.gap;
    var length := Rel(e, start, n) + 1;
    var arc, room := Arc(0, length, start, n), Arc(n - length, n - 1, e, n);
    if forall p :: 0 <= p < n && Rel(p, start, n) <= Rel(e, start, n) ==> left.b[p].word != 0 {
      ShorterArc(length, start, e, n);
      HomesInArc(left, right, there, back);
      TwinsNeedRoom(left, right, there, back, arc, room);
      assert false;
    }
  }

  lemma ShorterArc(length: nat, start: nat, end: nat, count: nat)
    requires 0 < length <= count && start < count && end < count
    ensures |Arc(count - length, count - 1, end, count)| < |Arc(0, length, start, count)|
  {
    CardinalityOfArc(0, length, start, count);
    CardinalityOfArc(count - length, count - 1, end, count);
  }

  /** A node whose home is in the run that ends at `right.gap` must sit before that gap. */
  lemma HomeInArc(left: Table, right: Table, there: map<nat, nat>, back: map<nat, nat>, p: nat)
    requires left.Valid() && right.Valid() && |left.b| == |right.b| && Embeds(left, right, there, back)
    requires p < |left.b| && left.b[p].word != 0
    requires Rel(p, left.gap, |left.b|) <= Rel(right.gap, left.gap, |left.b|)
    ensures var n, e := |left.b|, right.gap;
      TwinSlot(left, right, there, p) in Arc(n - (Rel(e, left.gap, n) + 1), n - 1, e, n)
  {
    var n, e, start := |left.b|, right.gap, left.gap;
    var x := left.b[p].node;
    assert SettledAt(left.b, left.tags, left.slots, start, p);
    var home := left.tags[x].home;
    assert Rel(home, start, n) <= Rel(e, start, n);
    var q := right.slots[there[x]];
    assert HeldAt(right.b, right.slots, there[x]) && SettledAt(right.b, right.tags, right.slots, e, q);
    assert q != e;
  }

  lemma HomesInArc(left: Table, right: Table, there: map<nat, nat>, back: map<nat, nat>)
    requires left.Valid() && right.Valid() && |left.b| == |right.b| && Embeds(left, right, there, back)
    requires forall p :: 0 <= p < |left.b| && Rel(p, left.gap, |left.b|) <= Rel(right.gap, left.gap, |left.b|)
               ==> left.b[p].word != 0
    ensures var n, e, start := |left.b|, right.gap, left.gap;
      var length := Rel(e, start, n) + 1;
      forall p :: p in Arc(0, length, start, n) ==>
        p < n && left.b[p].word != 0 && TwinSlot(left, right, there, p) in Arc(n - length, n - 1, e, n)
  {
    var n, e, start := |left.b|, right.gap, left.gap;
    var length := Rel(e, start, n) + 1;
    forall p | p in Arc(0, length, start, n)
      ensures p < n && left.b[p].word != 0 && TwinSlot(left, right, there, p) in Arc(n - length, n - 1, e, n)
    {
      HomeInArc(left, right, there, back, p);
    }
  }

  /** The tables have the same words at distances below `bound` from their common gap. */
  ghost predicate AgreeBelow(left: Table, right: Table, bound: int) {
    && |left.b| == |right.b| && left.gap == right.gap
    && forall q :: 0 <= q < |left.b| && Rel(q, left.gap, |left.b|) < bound ==> left.b[q].word == right.b[q].word
  }

  /** Tables that agree up to `p` cannot have the smaller word at `p` in `right`. */
  lemma NoSmaller(left: Table, right: Table, there: map<nat, nat>, back: map<nat, nat>, p: nat)
    requires left.Valid() && right.Valid() && Embeds(left, right, there, back)
    requires p < |left.b| && AgreeBelow(left, right, Rel(p, left.gap, |left.b|))
    ensures left.b[p].word <= right.b[p].word
  {
    if left.b[p].word > right.b[p].word {
      CarriedAlike(left, right, p);
      var q := TwinOutside(left, right, there, back, LikeUpTo(left, p), EarlierLike(left, p));
      TwinIsEarlier(left, right, there, back, p, q);
    }
  }

  /** When the residents outnumber the room, one of their twins sits elsewhere. */
  lemma TwinOutside(left: Table, right: Table, there: map<nat, nat>, back: map<nat, nat>,
                    places: set<nat>, room: set<nat>)
    returns (q: nat)
    requires left.Valid() && right.Valid() && Embeds(left, right, there, back)
    requires |places| > |room|
    requires forall q :: q in places ==> q < |left.b| && left.b[q].word != 0
    ensures q in places && TwinSlot(left, right, there, q) !in room
  {
    if forall x :: x in places ==> TwinSlot(left, right, there, x) in room {
      TwinsNeedRoom(left, right, there, back, places, room);
      assert false;
    }
    q :| q in places && TwinSlot(left, right, there, q) !in room;
  }

  /** The buckets before `p` whose residents are tagged like that of `p`. */
  ghost function EarlierLike(t: Table, p: nat): set<nat>
    requires p < |t.b| && t.b[p].node in t.tags
  {
    set q: nat | q < |t.b| && Rel(q, t.gap, |t.b|) < Rel(p, t.gap, |t.b|)
                 && t.b[q].word != 0 && t.b[q].node in t.tags && t.tags[t.b[q].node] == t.tags[t.b[p].node]
  }

  ghost function LikeUpTo(t: Table, p: nat): (places: set<nat>)
    requires p < |t.b| && t.b[p].word != 0 && t.b[p].node in t.tags
    ensures |places| == |EarlierLike(t, p)| + 1
    ensures forall q :: q in places ==>
      q < |t.b| && t.b[q].word != 0 && t.b[q].node in t.tags && t.tags[t.b[q].node] == t.tags[t.b[p].node]
  {
    assert p !in EarlierLike(t, p);
    EarlierLike(t, p) + {p}
  }

  lemma CarriedAlike(left: Table, right: Table, p: nat)
    requires left.Valid() && right.Valid()
    requires p < |left.b| && AgreeBelow(left, right, Rel(p, left.gap, |left.b|))
    requires left.b[p].word != 0
    ensures left.b[p].node in left.tags
    ensures Carried(right.b, left.b[p].word, p, left.tags[left.b[p].node], left.gap)
  {
    var n, gap := |left.b|, left.gap;
    var before := Previous(p, n);
    assert before == gap || Rel(before, gap, n) == Rel(p, gap, n) - 1;
    assert left.b[before].word == right.b[before].word;
    ResidentIsCarried(left.b, left.tags, left.slots, gap, p);
  }

  lemma TwinIsEarlier(left: Table, right: Table, there: map<nat, nat>, back: map<nat, nat>, p: nat, q: nat)
    requires left.Valid() && right.Valid() && Embeds(left, right, there, back)
    requires p < |left.b| && AgreeBelow(left, right, Rel(p, left.gap, |left.b|))
    requires left.b[p].word > right.b[p].word
    requires left.b[p].node in left.tags
    requires Carried(right.b, left.b[p].word, p, left.tags[left.b[p].node], left.gap)
    requires q < |left.b| && left.b[q].word != 0 && left.b[q].node in left.tags
    requires left.tags[left.b[q].node] == left.tags[left.b[p].node]
    ensures TwinSlot(left, right, there, q) in EarlierLike(left, p)
  {
    var n, gap := |left.b|, left.gap;
    var tag := left.tags[left.b[p].node];
    ResidentIsCarried(left.b, left.tags, left.slots, gap, q);
    var y := there[left.b[q].node];
    assert HeldAt(right.b, right.slots, y);
    var place := right.slots[y];
    if Rel(place, gap, n) >= Rel(p, gap, n) {
      StillAhead(right.b, right.tags, right.slots, gap, left.b[p].word, p, tag, y);
      assert false;
    }
    assert HeldAt(right.b, right.slots, y) && SettledAt(right.b, right.tags, right.slots, gap, place);
    assert SettledAt(left.b, left.tags, left.slots, gap, place);
    SameWordSameTag(left.b[place].word, place, left.tags[left.b[place].node], tag, gap, n);
  }

  lemma SameWordSameTag(word: nat, index: nat, one: Tag, other: Tag, gap: nat, count: nat)
    requires index < count && gap < count
    requires Fits(word, index, one, gap, count) && Fits(word, index, other, gap, count)
    ensures one == other
  {
    assert one.fingerprint == word % 256 == other.fingerprint;
    assert Rel(one.home, gap, count) == Rel(other.home, gap, count);
  }

  /** Two well-formed tables with as many nodes of each tag have the same words. */
  lemma WordsAreCanonical(left: Table, right: Table, there: map<nat, nat>, back: map<nat, nat>)
    requires left.Valid() && right.Valid() && |left.b| == |right.b|
    requires Embeds(left, right, there, back) && Embeds(right, left, back, there)
    ensures forall p :: 0 <= p < |left.b| ==> left.b[p].word == right.b[p].word
  {
    GapIsShared(left, right, there, back);
    ChangeOrigin(left.b, left.tags, left.slots, left.gap, right.gap);
    var moved := left.(gap := right.gap);
    AgreeUpTo(moved, right, there, back, |left.b|);
    assert forall p :: 0 <= p < |left.b| ==> Rel(p, moved.gap, |left.b|) < |left.b|;
  }

  lemma {:induction false} AgreeUpTo(left: Table, right: Table, there: map<nat, nat>, back: map<nat, nat>, bound: nat)
    requires left.Valid() && right.Valid() && |left.b| == |right.b| && left.gap == right.gap
    requires Embeds(left, right, there, back) && Embeds(right, left, back, there)
    ensures AgreeBelow(left, right, bound)
    decreases bound
  {
    if bound > 0 {
      AgreeUpTo(left, right, there, back, bound - 1);
      if p: nat :| p < |left.b| && Rel(p, left.gap, |left.b|) == bound - 1 {
        AgreeAt(left, right, there, back, p);
        assert forall q :: 0 <= q < |left.b| && Rel(q, left.gap, |left.b|) == bound - 1 ==> q == p;
      }
    }
  }

  lemma AgreeAt(left: Table, right: Table, there: map<nat, nat>, back: map<nat, nat>, p: nat)
    requires left.Valid() && right.Valid()
    requires Embeds(left, right, there, back) && Embeds(right, left, back, there)
    requires p < |left.b| && AgreeBelow(left, right, Rel(p, left.gap, |left.b|))
    ensures left.b[p].word == right.b[p].word
  {
    NoSmaller(left, right, there, back, p);
    NoSmaller(right, left, back, there, p);
  }
}
