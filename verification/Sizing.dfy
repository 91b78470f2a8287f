/** How many buckets the table asks for, and how full it lets them become. */
module Sizing {
  import opened Bits

  const INITIAL_BUCKET_COUNT: nat := 8
  const DEFAULT_MAX_LOAD_FACTOR: real := 0.8

  /** `compute_load_capacity`: how many elements `count` buckets may hold. */
  function LoadCapacity(count: nat, factor: real): nat
    requires count > 0 && factor > 0.0
  {
    if factor >= 1.0 then count - 1
    else
      ScaleIsMonotone(0, count, factor);
      var capacity := (count as real * factor).Floor;
      if capacity < count then capacity else count - 1
  }

  function CapacityFor(count: nat, factor: real): nat
    requires factor > 0.0
  {
    if count == 0 then 0 else LoadCapacity(count, factor)
  }

  /** `round_up_to_power_of_two`. */
  function RoundUp(value: nat): nat {
    if value < INITIAL_BUCKET_COUNT then INITIAL_BUCKET_COUNT else BitCeil(value)
  }

  function Quotient(elements: nat, factor: real): nat
    requires factor > 0.0
  {
    QuotientOf(elements, factor);
    (elements as real / factor).Floor
  }

  /** `bucket_count_for_elements`. */
  function CountForElements(elements: nat, factor: real): nat
    requires factor > 0.0
  {
    if elements == 0 then 0 else RoundUp(Quotient(elements, factor) + 1)
  }

  /** The bucket count that `rehash(requested)` settles on; 0 means it allocates nothing. */
  function RehashTarget(requested: nat, size: nat, factor: real): nat
    requires factor > 0.0
  {
    var minimum := CountForElements(size, factor);
    var target := if requested < minimum then minimum else requested;
    if target == 0 then 0 else RoundUp(target)
  }

  /** The bucket count after `reserve_for_one_more`. */
  function GrownCount(count: nat, capacity: nat, size: nat): nat {
    if count == 0 then INITIAL_BUCKET_COUNT
    else if size + 1 > capacity then 2 * count
    else count
  }

  /** The bucket count of a table and the load it grows at. */
  datatype Sizes = Sizes(count: nat, capacity: nat)

  /** The sizes after one more element was added to `size` of them. */
  function Grown(sizes: Sizes, size: nat, factor: real): Sizes
    requires factor > 0.0
  {
    var count := GrownCount(sizes.count, sizes.capacity, size);
    if count == sizes.count then sizes else Sizes(count, CapacityFor(count, factor))
  }

  /** The sizes after `added` more elements, one by one, joined `size` of them. */
  function GrownBy(sizes: Sizes, size: nat, added: nat, factor: real): Sizes
    requires factor > 0.0
  {
    if added == 0 then sizes else Grown(GrownBy(sizes, size, added - 1, factor), size + added - 1, factor)
  }

  /** The sizes of a table that `size` elements were copied into. */
  function Copied(size: nat, factor: real): Sizes
    requires factor > 0.0
  {
    var count := RehashTarget(CountForElements(size, factor), 0, factor);
    GrownBy(Sizes(count, CapacityFor(count, factor)), 0, size, factor)
  }

  ghost predicate TableSize(count: nat) {
    PowerOfTwo(count) && count >= INITIAL_BUCKET_COUNT
  }

  // ---- real arithmetic -----------------------------------------------------

  lemma ProductSign(left: real, right: real)
    ensures left >= 0.0 && right >= 0.0 ==> left * right >= 0.0
    ensures left > 0.0 && right > 0.0 ==> left * right > 0.0
  {
  }

  lemma ScaleReals(low: real, high: real, factor: real)
    requires low <= high && factor > 0.0
    ensures low * factor <= high * factor
    ensures low < high ==> low * factor < high * factor
  {
    ProductSign(high - low, factor);
    assert (high - low) * factor == high * factor - low * factor;
  }

  lemma ScaleIsMonotone(low: int, high: int, factor: real)
    requires low <= high && factor > 0.0
    ensures low as real * factor <= high as real * factor
  {
    ScaleReals(low as real, high as real, factor);
  }

  lemma ShrinkReal(value: real, factor: real)
    requires value >= 0.0 && 0.0 < factor <= 1.0
    ensures 0.0 <= value * factor <= value
    ensures factor < 1.0 && value > 0.0 ==> value * factor < value
  {
    ProductSign(value, factor);
    ProductSign(value, 1.0 - factor);
    assert value * (1.0 - factor) == value - value * factor;
  }

  lemma QuotientOf(elements: nat, factor: real)
    requires factor > 0.0
    ensures elements as real / factor >= 0.0
    ensures (elements as real / factor) * factor == elements as real
  {
    var exact := elements as real / factor;
    assert exact * factor == elements as real;
    if exact < 0.0 {
      ScaleReals(exact, 0.0, factor);
    }
  }

  /** `Quotient` is the largest whole number whose scaled value stays within `elements`. */
  lemma QuotientIsFloor(elements: nat, factor: real, bound: nat)
    requires factor > 0.0
    ensures Quotient(elements, factor) >= bound <==> bound as real * factor <= elements as real
  {
    var exact := elements as real / factor;
    QuotientOf(elements, factor);
    FloorAtLeast(exact, bound);
    if bound as real <= exact {
      ScaleReals(bound as real, exact, factor);
    } else {
      ScaleReals(exact, bound as real, factor);
    }
  }

  lemma FloorAtLeast(value: real, bound: int)
    ensures value.Floor >= bound <==> bound as real <= value
  {
  }

  // ---- capacity ------------------------------------------------------------

  /** The open-addressing floor: a full load still leaves an empty bucket. */
  lemma CapacityLeavesGap(count: nat, factor: real)
    requires count > 0 && factor > 0.0
    ensures LoadCapacity(count, factor) < count
  {
  }

  /** From a load factor of one on, only the one empty bucket is kept back. */
  lemma CapacityAtFullLoad(count: nat, factor: real)
    requires count > 0 && factor >= 1.0
    ensures LoadCapacity(count, factor) == count - 1
  {
  }

  /** Below a load factor of one, the capacity is the floor of the scaled count. */
  lemma CapacityIsFloor(count: nat, factor: real, size: nat)
    requires count > 0 && 0.0 < factor < 1.0
    ensures size <= LoadCapacity(count, factor) <==> size as real <= count as real * factor
  {
    ShrinkReal(count as real, factor);
    FloorAtLeast(count as real * factor, size);
    FloorAtLeast(count as real * factor, count);
  }

  // ---- rounding ------------------------------------------------------------

  lemma RoundUpIsTableSize(value: nat)
    ensures TableSize(RoundUp(value)) && value <= RoundUp(value)
    ensures TableSize(value) ==> RoundUp(value) == value
  {
    Pow2Values();
    Pow2IsPowerOfTwo(3);
    if value >= INITIAL_BUCKET_COUNT {
      BitCeilIsLeast(value);
      if PowerOfTwo(value) { BitCeilOfPower(value); }
    }
  }

  lemma {:induction false} BitCeilIsMonotone(low: nat, high: nat)
    requires 0 < low <= high
    ensures BitCeil(low) <= BitCeil(high)
  {
    BitCeilIsLeast(low);
    BitCeilIsLeast(high);
    assert low <= Pow2(CountrZero(BitCeil(high)));
  }

  lemma RoundUpIsMonotone(low: nat, high: nat)
    requires low <= high
    ensures RoundUp(low) <= RoundUp(high)
  {
    RoundUpIsTableSize(high);
    if low >= INITIAL_BUCKET_COUNT { BitCeilIsMonotone(low, high); }
  }

  /** `RoundUp` overtakes `size` exactly when the rounded value is above `BitFloor(size)`. */
  lemma RoundUpOvertakes(value: nat, size: nat)
    requires size > 0
    ensures RoundUp(value) > size <==> size < INITIAL_BUCKET_COUNT || value > BitFloor(size)
  {
    RoundUpIsTableSize(value);
    BitFloorIsGreatest(size);
    if value >= INITIAL_BUCKET_COUNT {
      BitCeilOvertakes(value, size);
    } else if size >= INITIAL_BUCKET_COUNT {
      Pow2Values();
      var exponent := CountrZero(BitFloor(size));
      if exponent < 3 {
        Pow2Monotone(exponent + 1, 3);
      } else {
        Pow2Monotone(3, exponent);
      }
    }
  }

  lemma CountForElementsOvertakes(elements: nat, factor: real)
    requires factor > 0.0 && elements > 0
    ensures CountForElements(elements, factor) > elements <==>
      elements < INITIAL_BUCKET_COUNT || BitFloor(elements) as real * factor <= elements as real
  {
    hide BitFloor, RoundUp, Quotient;
    RoundUpOvertakes(Quotient(elements, factor) + 1, elements);
    QuotientIsFloor(elements, factor, BitFloor(elements));
  }

  lemma CountForElementsIsMonotone(low: nat, high: nat, factor: real)
    requires factor > 0.0 && low <= high
    ensures CountForElements(low, factor) <= CountForElements(high, factor)
  {
    if low > 0 {
      QuotientIsFloor(low, factor, Quotient(low, factor));
      QuotientIsFloor(high, factor, Quotient(low, factor));
      RoundUpIsMonotone(Quotient(low, factor) + 1, Quotient(high, factor) + 1);
    }
  }

  lemma CountForElementsIsTableSize(elements: nat, factor: real)
    requires factor > 0.0
    ensures CountForElements(elements, factor) == 0 <==> elements == 0
    ensures elements > 0 ==> TableSize(CountForElements(elements, factor))
  {
    if elements > 0 { RoundUpIsTableSize(Quotient(elements, factor) + 1); }
  }

  // ---- rehash --------------------------------------------------------------

  lemma RehashTargetMeaning(requested: nat, size: nat, factor: real)
    requires factor > 0.0
    ensures var target := RehashTarget(requested, size, factor);
      && (target == 0 <==> requested == 0 && size == 0)
      && (target != 0 ==> TableSize(target) && target >= requested && target >= CountForElements(size, factor))
  {
    CountForElementsIsTableSize(size, factor);
    var minimum := CountForElements(size, factor);
    RoundUpIsTableSize(if requested < minimum then minimum else requested);
  }

  /** What a caller can check before `rehash(requested)` on a table of `size` elements. */
  ghost predicate RehashIsSafe(requested: nat, size: nat, factor: real) {
    || size < INITIAL_BUCKET_COUNT
    || requested > BitFloor(size)
    || BitFloor(size) as real * factor <= size as real
  }

  /** `rehash` allocates more buckets than there are elements exactly when it is safe. */
  lemma RehashLeavesGap(requested: nat, size: nat, factor: real)
    requires factor > 0.0 && size > 0
    ensures RehashTarget(requested, size, factor) > size <==> RehashIsSafe(requested, size, factor)
  {
    hide BitFloor, RoundUp, Quotient, CountForElements;
    var minimum := CountForElements(size, factor);
    var floor, scaled := BitFloor(size), BitFloor(size) as real * factor <= size as real;
    assert minimum > floor <==> scaled || size < INITIAL_BUCKET_COUNT by {
      MinimumOvertakes(size, factor);
    }
    var target := if requested < minimum then minimum else requested;
    assert target > 0 by { CountForElementsIsTableSize(size, factor); }
    RoundUpOvertakes(target, size);
  }

  lemma MinimumOvertakes(size: nat, factor: real)
    requires factor > 0.0 && size > 0
    ensures CountForElements(size, factor) > BitFloor(size) <==>
      size < INITIAL_BUCKET_COUNT || BitFloor(size) as real * factor <= size as real
  {
    hide BitFloor, RoundUp, Quotient, CountForElements;
    var minimum := CountForElements(size, factor);
    CountForElementsOvertakes(size, factor);
    CountForElementsIsTableSize(size, factor);
    RoundUpIsTableSize(minimum);
    RoundUpOvertakes(minimum, size);
    BitFloorIsGreatest(size);
  }

  /** With a maximum load factor of at most one, every rehash is safe. */
  lemma RehashIsSafeUpToOne(requested: nat, size: nat, factor: real)
    requires 0.0 < factor <= 1.0
    ensures RehashIsSafe(requested, size, factor)
  {
    if size > 0 {
      ScaledFloorWithin(size, factor);
    }
  }

  lemma ScaledWithin(low: nat, high: nat, factor: real)
    requires low <= high && 0.0 < factor <= 1.0
    ensures low as real * factor <= high as real
  {
    ShrinkReal(low as real, factor);
  }

  /** Above one it can fail: fifteen elements at factor 2 are rebuilt into eight buckets. */
  lemma RehashCanOverfill()
    ensures RehashTarget(0, 15, 2.0) == 8
    ensures !RehashIsSafe(0, 15, 2.0)
  {
    assert BitFloor(15) == 8 by { assert BitFloor(3) == 2; assert BitFloor(7) == 4; }
    assert Quotient(15, 2.0) == 7;
    assert BitCeil(8) == 8 by { assert BitCeil(2) == 2; assert BitCeil(4) == 4; }
  }

  /** A safe rehash with sizes in range asks for a table that can be allocated and filled. */
  lemma RehashTargetFits(requested: nat, size: nat, factor: real)
    requires factor > 0.0 && RehashIsSafe(requested, size, factor)
    requires requested <= 0x8000_0000_0000_0000 && CountForElements(size, factor) <= 0x8000_0000_0000_0000
    ensures var target := RehashTarget(requested, size, factor);
      if target == 0 then requested == 0 && CountForElements(size, factor) == 0
      else TableSize(target) && target > size && CountrZero(target) <= 63
  {
    RehashTargetMeaning(requested, size, factor);
    CountForElementsIsTableSize(size, factor);
    if size > 0 {
      RehashLeavesGap(requested, size, factor);
    }
    var minimum := CountForElements(size, factor);
    RoundUpFits(if requested < minimum then minimum else requested);
  }

  /** What a caller can check before relying on `reserve(elements)`. */
  ghost predicate ReserveIsKept(elements: nat, factor: real)
    requires elements > 0
  {
    elements < INITIAL_BUCKET_COUNT || BitFloor(elements) as real * factor <= elements as real
  }

  lemma ReserveIsKeptUpToOne(elements: nat, factor: real)
    requires elements > 0 && 0.0 < factor <= 1.0
    ensures ReserveIsKept(elements, factor)
  {
    ScaledFloorWithin(elements, factor);
  }

  /** The load factor is at least 2^-38, so that a full table never needs more than 2^62 buckets. */
  ghost predicate FactorIsSensible(factor: real) {
    factor > 0.0 && factor * 274877906944.0 >= 1.0
  }

  /** From a factor of 1/8 on, up to 2^58 elements ask for no more than 2^62 buckets. */
  lemma CountIsBounded(elements: nat, factor: real)
    requires factor >= 0.125 && elements <= 0x400_0000_0000_0000
    ensures CountForElements(elements, factor) <= 0x4000_0000_0000_0000
  {
    if elements > 0 {
      var bound := 8 * elements + 1;
      ScaleReals(0.125, factor, bound as real);
      assert bound as real * factor >= bound as real * 0.125;
      QuotientIsFloor(elements, factor, bound);
      RoundUpFits(Quotient(elements, factor) + 1);
    }
  }

  /** With a sensible factor, the elements of any table ask for no more than 2^62 buckets. */
  lemma SizeIsReservable(elements: nat, factor: real)
    requires FactorIsSensible(factor) && elements <= 0xFF_FFFE
    ensures CountForElements(elements, factor) <= 0x4000_0000_0000_0000
  {
    if elements > 0 {
      var bound := 0x4000_0000_0000_0000;
      ScaleReals(1.0, factor * 274877906944.0, 16777216.0);
      assert bound as real * factor == factor * 274877906944.0 * 16777216.0;
      QuotientIsFloor(elements, factor, bound);
      RoundUpFits(Quotient(elements, factor) + 1);
    }
  }

  lemma LoadShrinks(count: nat, size: nat, less: nat, factor: real)
    requires factor > 0.0 && WithinLoad(count, size, factor) && less <= size
    ensures WithinLoad(count, less, factor)
  {
  }

  lemma GrowthIsBounded(count: nat, size: nat, factor: real)
    requires FactorIsSensible(factor) && count > 0 && size < 0xFF_FFFE
    requires size + 1 > LoadCapacity(count, factor)
    ensures count <= 0x4000_0000_0000_0000
  {
    hide LoadCapacity;
    if factor >= 1.0 {
      CapacityAtFullLoad(count, factor);
    } else {
      CapacityIsFloor(count, factor, size + 1);
      var scaled := count as real * factor;
      ScaleReals(1.0, factor * 274877906944.0, count as real);
      assert factor * 274877906944.0 * count as real == scaled * 274877906944.0;
    }
  }

  // ---- the load bound ------------------------------------------------------

  /** `size` elements are within the load that `count` buckets allow. */
  ghost predicate WithinLoad(count: nat, size: nat, factor: real)
    requires factor > 0.0
  {
    if count == 0 then size == 0 else TableSize(count) && size <= LoadCapacity(count, factor)
  }

  /** Lowering the factor, or keeping the capacity of a larger one, can leave a table above its load. */
  lemma StaleCapacityOverloads()
    ensures LoadCapacity(8, DEFAULT_MAX_LOAD_FACTOR) == 6 && LoadCapacity(8, 0.25) == 2
    ensures WithinLoad(8, 6, DEFAULT_MAX_LOAD_FACTOR) && !WithinLoad(8, 6, 0.25)
  {
    InitialCount();
  }

  lemma InitialCount()
    ensures TableSize(INITIAL_BUCKET_COUNT) && CountrZero(INITIAL_BUCKET_COUNT) == 3
  {
    Pow2Values();
    Pow2IsPowerOfTwo(3);
  }

  /** Doubling a size of at most 2^62 stays below 2^64. */
  lemma DoubledCountFits(count: nat)
    requires TableSize(count) && count <= 0x4000_0000_0000_0000
    ensures CountrZero(2 * count) <= 63
  {
    TableSizeDoubles(count);
    Pow2Values();
    assert Pow2(64) == 2 * Pow2(63);
    if CountrZero(count) > 62 {
      Pow2Monotone(63, CountrZero(count));
    }
  }

  /** Rounding up a request of at most 2^63 stays below 2^64. */
  lemma RoundUpFits(value: nat)
    requires value <= 0x8000_0000_0000_0000
    ensures RoundUp(value) > 0 && CountrZero(RoundUp(value)) <= 63
    ensures value <= 0x4000_0000_0000_0000 ==> RoundUp(value) <= 0x4000_0000_0000_0000
  {
    RoundUpIsTableSize(value);
    Pow2Values();
    assert Pow2(64) == 2 * Pow2(63) && Pow2(63) == 2 * Pow2(62);
    RoundUpStaysWithin(value, 63);
    if value <= 0x4000_0000_0000_0000 {
      RoundUpStaysWithin(value, 62);
    }
    if CountrZero(RoundUp(value)) > 63 {
      Pow2Monotone(64, CountrZero(RoundUp(value)));
    }
  }

  lemma RoundUpStaysWithin(value: nat, exponent: nat)
    requires exponent >= 3 && value <= Pow2(exponent)
    ensures RoundUp(value) <= Pow2(exponent)
  {
    if value < INITIAL_BUCKET_COUNT {
      Pow2Values();
      Pow2Monotone(3, exponent);
    } else {
      BitCeilIsLeast(value);
    }
  }

  lemma TableSizeDoubles(count: nat)
    requires TableSize(count)
    ensures TableSize(2 * count)
    ensures CountrZero(2 * count) == CountrZero(count) + 1
  {
    Pow2IsPowerOfTwo(CountrZero(count) + 1);
  }

  /** One doubling makes room for one more element, as long as eight buckets may hold one. */
  lemma GrowthSuffices(count: nat, size: nat, factor: real)
    requires factor >= 0.125
    requires WithinLoad(count, size, factor)
    ensures WithinLoad(GrownCount(count, CapacityFor(count, factor), size), size + 1, factor)
  {
    hide LoadCapacity;
    if count == 0 {
      Pow2Values();
      Pow2IsPowerOfTwo(3);
      if factor < 1.0 {
        ScaledIsOne(8.0, factor);
        CapacityIsFloor(INITIAL_BUCKET_COUNT, factor, 1);
      } else {
        CapacityAtFullLoad(INITIAL_BUCKET_COUNT, factor);
      }
    } else if size + 1 > LoadCapacity(count, factor) {
      TableSizeDoubles(count);
      if factor < 1.0 {
        DoublingSuffices(count, size, factor);
      } else {
        CapacityAtFullLoad(count, factor);
        CapacityAtFullLoad(2 * count, factor);
      }
    }
  }

  /** Growing element by element keeps the load. */
  lemma {:induction false} GrowingKeepsLoad(sizes: Sizes, size: nat, added: nat, factor: real)
    requires factor >= 0.125 && WithinLoad(sizes.count, size, factor)
    requires sizes.capacity == CapacityFor(sizes.count, factor)
    ensures var grown := GrownBy(sizes, size, added, factor);
      WithinLoad(grown.count, size + added, factor) && grown.capacity == CapacityFor(grown.count, factor)
  {
    hide LoadCapacity;
    if added > 0 {
      GrowingKeepsLoad(sizes, size, added - 1, factor);
      GrowthSuffices(GrownBy(sizes, size, added - 1, factor).count, size + added - 1, factor);
    }
  }

  lemma CopyingKeepsLoad(size: nat, factor: real)
    requires factor >= 0.125
    ensures var copied := Copied(size, factor);
      WithinLoad(copied.count, size, factor) && copied.capacity == CapacityFor(copied.count, factor)
  {
    hide LoadCapacity, CountForElements, RehashTarget, GrownBy;
    var count := RehashTarget(CountForElements(size, factor), 0, factor);
    SafeRehashRestoresLoad(CountForElements(size, factor), 0, factor);
    GrowingKeepsLoad(Sizes(count, CapacityFor(count, factor)), 0, size, factor);
  }

  lemma ScaledIsOne(value: real, factor: real)
    requires value >= 8.0 && factor >= 0.125
    ensures value * factor >= 1.0
  {
    ProductSign(value - 8.0, factor);
    assert (value - 8.0) * factor == value * factor - 8.0 * factor;
  }

  lemma DoublingSuffices(count: nat, size: nat, factor: real)
    requires 0.125 <= factor < 1.0 && count >= 8
    requires size <= LoadCapacity(count, factor)
    ensures size + 1 <= LoadCapacity(2 * count, factor)
  {
    hide LoadCapacity;
    var scaled := count as real * factor;
    assert size as real <= scaled by { CapacityIsFloor(count, factor, size); }
    ScaledIsOne(count as real, factor);
    assert (2 * count) as real * factor == 2.0 * scaled;
    CapacityIsFloor(2 * count, factor, size + 1);
  }

  /** The load bound survives every insertion exactly for factors of at least 1/8. */
  lemma GrowthSufficesExactly(factor: real)
    requires factor > 0.0
    ensures (forall count: nat, size: nat :: WithinLoad(count, size, factor) ==>
               WithinLoad(GrownCount(count, CapacityFor(count, factor), size), size + 1, factor))
            <==> factor >= 0.125
  {
    if factor >= 0.125 {
      forall count: nat, size: nat | WithinLoad(count, size, factor)
        ensures WithinLoad(GrownCount(count, CapacityFor(count, factor), size), size + 1, factor)
      {
        GrowthSuffices(count, size, factor);
      }
    } else {
      CapacityIsFloor(INITIAL_BUCKET_COUNT, factor, 1);
      assert WithinLoad(0, 0, factor) && !WithinLoad(GrownCount(0, CapacityFor(0, factor), 0), 1, factor);
    }
  }

  /** Any safe rehash does, whatever the factor. */
  lemma SafeRehashRestoresLoad(requested: nat, size: nat, factor: real)
    requires factor > 0.0 && RehashIsSafe(requested, size, factor)
    ensures WithinLoad(RehashTarget(requested, size, factor), size, factor)
  {
    hide LoadCapacity, RehashIsSafe;
    if factor <= 1.0 {
      RehashRestoresLoad(requested, size, factor);
    } else {
      RehashTargetMeaning(requested, size, factor);
      var target := RehashTarget(requested, size, factor);
      if size > 0 {
        RehashLeavesGap(requested, size, factor);
      }
      if target > 0 {
        CapacityAtFullLoad(target, factor);
      }
    }
  }

  /** Rehashing brings the table within its load, for factors up to one. */
  lemma RehashRestoresLoad(requested: nat, size: nat, factor: real)
    requires 0.0 < factor <= 1.0
    ensures WithinLoad(RehashTarget(requested, size, factor), size, factor)
  {
    hide LoadCapacity, CountForElements;
    RehashTargetMeaning(requested, size, factor);
    var target := RehashTarget(requested, size, factor);
    if target != 0 {
      CapacityCovers(target, size, factor);
    }
  }

  lemma CapacityCovers(count: nat, elements: nat, factor: real)
    requires 0.0 < factor <= 1.0 && count > 0
    requires count >= CountForElements(elements, factor)
    ensures LoadCapacity(count, factor) >= elements
  {
    hide LoadCapacity, Quotient;
    if elements > 0 {
      var least := Quotient(elements, factor) + 1;
      assert count >= least by { RoundUpIsTableSize(least); }
      assert least as real * factor > elements as real by { QuotientIsFloor(elements, factor, least); }
      CoversScaled(count, least, elements, factor);
    }
  }

  lemma CoversScaled(count: nat, least: nat, elements: nat, factor: real)
    requires 0.0 < factor <= 1.0 && 0 < least <= count
    requires least as real * factor > elements as real
    ensures LoadCapacity(count, factor) >= elements
  {
    hide LoadCapacity;
    ScaleIsMonotone(least, count, factor);
    if factor < 1.0 {
      CapacityIsFloor(count, factor, elements);
    } else {
      CapacityAtFullLoad(count, factor);
      assert least as real * 1.0 == least as real;
    }
  }

  /** After `reserve(elements)` the capacity covers `elements`, exactly when this holds. */
  lemma ReserveSuffices(elements: nat, size: nat, factor: real)
    requires factor > 0.0 && 0 < elements && size <= elements
    ensures var target := RehashTarget(CountForElements(elements, factor), size, factor);
      && target == CountForElements(elements, factor) > 0
      && (LoadCapacity(target, factor) >= elements <==> ReserveIsKept(elements, factor))
  {
    hide CountForElements, LoadCapacity, BitFloor, RoundUp;
    var target := CountForElements(elements, factor);
    CountForElementsIsMonotone(size, elements, factor);
    CountForElementsIsTableSize(elements, factor);
    RoundUpIsTableSize(target);
    if factor <= 1.0 {
      CapacityCovers(target, elements, factor);
      ScaledFloorWithin(elements, factor);
    } else {
      CapacityAtFullLoad(target, factor);
      CountForElementsOvertakes(elements, factor);
    }
  }

  lemma ScaledFloorWithin(elements: nat, factor: real)
    requires elements > 0 && 0.0 < factor <= 1.0
    ensures BitFloor(elements) as real * factor <= elements as real
  {
    assert BitFloor(elements) <= elements by { BitFloorIsGreatest(elements); }
    ScaledWithin(BitFloor(elements), elements, factor);
  }

  /** Within the capacity, `size / count <= factor`, and a bucket is empty. */
  lemma WithinCapacityMeans(count: nat, size: nat, factor: real)
    requires count > 0 && factor > 0.0 && size <= LoadCapacity(count, factor)
    ensures size as real <= count as real * factor && size < count
  {
    hide LoadCapacity;
    CapacityLeavesGap(count, factor);
    if factor < 1.0 {
      CapacityIsFloor(count, factor, size);
    } else {
      ScaleReals(1.0, factor, count as real);
    }
  }

  // ---- exact sizes ---------------------------------------------------------

  lemma TableSizeMeaning(count: nat)
    ensures TableSize(count) <==> count >= 8 && exists exponent: nat :: count == Pow2(exponent)
  {
    if exponent: nat :| count == Pow2(exponent) {
      Pow2IsPowerOfTwo(exponent);
    }
  }

  /** Rounding up gives the least table size that is not below the value. */
  lemma RoundUpIsLeast(value: nat, count: nat)
    requires TableSize(count)
    ensures RoundUp(value) <= count <==> value <= count
  {
    RoundUpIsTableSize(value);
    RoundUpIsTableSize(count);
    if value <= count {
      RoundUpIsMonotone(value, count);
    }
  }

  /** The count for some elements is the least table size whose scaled value exceeds them. */
  lemma CountIsLeast(elements: nat, factor: real, count: nat)
    requires factor > 0.0 && elements > 0 && TableSize(count)
    ensures CountForElements(elements, factor) <= count <==> count as real * factor > elements as real
  {
    hide RoundUp, Quotient, TableSize;
    RoundUpIsLeast(Quotient(elements, factor) + 1, count);
    QuotientIsFloor(elements, factor, count);
  }

  /** `rehash` settles on the least table size that is not below the request and carries the elements. */
  lemma RehashTargetIsLeast(requested: nat, size: nat, factor: real, count: nat)
    requires factor > 0.0 && TableSize(count)
    ensures RehashTarget(requested, size, factor) == 0 <==> requested == 0 && size == 0
    ensures RehashTarget(requested, size, factor) != 0 ==> TableSize(RehashTarget(requested, size, factor))
    ensures RehashTarget(requested, size, factor) <= count <==>
      requested <= count && (size == 0 || count as real * factor > size as real)
  {
    hide RoundUp, TableSize, CountForElements;
    RehashTargetMeaning(requested, size, factor);
    var minimum := CountForElements(size, factor);
    CountForElementsIsTableSize(size, factor);
    if size > 0 {
      CountIsLeast(size, factor, count);
    }
    RoundUpIsLeast(if requested < minimum then minimum else requested, count);
  }

  /** `target` is the least table size that is not below `floor` and carries these elements. */
  ghost predicate LeastFor(target: nat, floor: nat, elements: nat, factor: real) {
    && (target == 0 <==> floor == 0 && elements == 0)
    && (target != 0 ==> TableSize(target))
    && forall count: nat :: TableSize(count) ==>
         (target <= count <==> floor <= count && (elements == 0 || count as real * factor > elements as real))
  }

  lemma RehashTargetIsTheLeast(requested: nat, size: nat, factor: real)
    requires factor > 0.0
    ensures LeastFor(RehashTarget(requested, size, factor), requested, size, factor)
  {
    hide RehashTarget, TableSize;
    InitialCount();
    RehashTargetIsLeast(requested, size, factor, INITIAL_BUCKET_COUNT);
    forall count: nat | TableSize(count)
      ensures RehashTarget(requested, size, factor) <= count <==>
        requested <= count && (size == 0 || count as real * factor > size as real)
    {
      RehashTargetIsLeast(requested, size, factor, count);
    }
  }

  lemma ReserveTargetIsTheLeast(expected: nat, size: nat, factor: real)
    requires factor > 0.0
    ensures LeastFor(RehashTarget(CountForElements(expected, factor), size, factor), 0,
                     if size < expected then expected else size, factor)
  {
    hide RehashTarget, TableSize, CountForElements;
    InitialCount();
    RehashTargetIsLeast(CountForElements(expected, factor), size, factor, INITIAL_BUCKET_COUNT);
    CountForElementsIsTableSize(expected, factor);
    forall count: nat | TableSize(count)
      ensures RehashTarget(CountForElements(expected, factor), size, factor) <= count <==>
        && (expected == 0 || count as real * factor > expected as real)
        && (size == 0 || count as real * factor > size as real)
    {
      ReserveTargetIsLeast(expected, size, factor, count);
    }
  }

  /** `reserve` settles on the least table size that carries the elements to come and those there are. */
  lemma ReserveTargetIsLeast(expected: nat, size: nat, factor: real, count: nat)
    requires factor > 0.0 && TableSize(count)
    ensures RehashTarget(CountForElements(expected, factor), size, factor) <= count <==>
      && (expected == 0 || count as real * factor > expected as real)
      && (size == 0 || count as real * factor > size as real)
  {
    hide RehashTarget, CountForElements;
    RehashTargetIsLeast(CountForElements(expected, factor), size, factor, count);
    CountForElementsIsTableSize(expected, factor);
    if expected > 0 {
      CountIsLeast(expected, factor, count);
    }
  }

  /** Room for one more is made in the present table if its capacity allows, else in the next larger one. */
  lemma GrowthIsLeast(count: nat, capacity: nat, size: nat, other: nat)
    requires (count == 0 || TableSize(count)) && TableSize(other)
    ensures TableSize(GrownCount(count, capacity, size))
    ensures GrownCount(count, capacity, size) <= other <==>
      count == 0 || count < other || (count == other && size + 1 <= capacity)
  {
    InitialCount();
    if count != 0 {
      TableSizeDoubles(count);
      if count < other {
        NextTableSize(count, other);
      }
    }
  }

  lemma NextTableSize(count: nat, other: nat)
    requires TableSize(count) && TableSize(other) && count < other
    ensures 2 * count <= other
  {
    if CountrZero(other) <= CountrZero(count) {
      Pow2Monotone(CountrZero(other), CountrZero(count));
    }
    Pow2Monotone(CountrZero(count) + 1, CountrZero(other));
  }

  /** The bucket count never falls, and stays while the elements are within the capacity. */
  lemma {:induction false} GrowingIsMonotone(sizes: Sizes, size: nat, added: nat, factor: real)
    requires factor > 0.0
    ensures GrownBy(sizes, size, added, factor).count >= sizes.count
    ensures added == 0 || (sizes.count != 0 && size + added <= sizes.capacity) ==>
      GrownBy(sizes, size, added, factor) == sizes
  {
    if added > 0 {
      GrowingIsMonotone(sizes, size, added - 1, factor);
    }
  }

  lemma {:induction false} GrowingAddsUp(sizes: Sizes, size: nat, first: nat, second: nat, factor: real)
    requires factor > 0.0
    ensures GrownBy(GrownBy(sizes, size, first, factor), size + first, second, factor)
         == GrownBy(sizes, size, first + second, factor)
  {
    if second > 0 {
      GrowingAddsUp(sizes, size, first, second - 1, factor);
    }
  }

  /** Two stretches of growth make one, along which the bucket count never falls. */
  lemma GrowthChain(first: Sizes, second: Sizes, third: Sizes, size: nat, later: nat, last: nat, factor: real)
    requires factor > 0.0 && size <= later <= last
    requires second == GrownBy(first, size, later - size, factor)
    requires third == GrownBy(second, later, last - later, factor)
    ensures third == GrownBy(first, size, last - size, factor)
    ensures first.count <= second.count <= third.count
  {
    hide GrownBy;
    GrowingAddsUp(first, size, later - size, last - later, factor);
    GrowingIsMonotone(first, size, later - size, factor);
    GrowingIsMonotone(second, later, last - later, factor);
  }

  lemma OneGrowth(sizes: Sizes, size: nat, factor: real)
    requires factor > 0.0
    ensures GrownBy(sizes, size, 0, factor) == sizes && GrownBy(sizes, size, 1, factor) == Grown(sizes, size, factor)
  {
  }

  lemma LargerHoldsMore(low: nat, high: nat, factor: real)
    requires 0 < low <= high && factor > 0.0
    ensures LoadCapacity(low, factor) <= LoadCapacity(high, factor)
  {
    hide LoadCapacity;
    if factor >= 1.0 {
      CapacityAtFullLoad(low, factor);
      CapacityAtFullLoad(high, factor);
    } else {
      CapacityIsFloor(low, factor, LoadCapacity(low, factor));
      CapacityIsFloor(high, factor, LoadCapacity(low, factor));
      ScaleIsMonotone(low, high, factor);
    }
  }

  /** From a factor of 1/8 on, growing settles on the least larger table that may hold the elements. */
  lemma {:induction false} GrowingIsLeast(sizes: Sizes, size: nat, added: nat, factor: real, count: nat)
    requires factor >= 0.125 && WithinLoad(sizes.count, size, factor) && TableSize(count)
    requires sizes.capacity == CapacityFor(sizes.count, factor)
    ensures GrownBy(sizes, size, added, factor).count <= count <==>
      sizes.count <= count && size + added <= LoadCapacity(count, factor)
  {
    hide LoadCapacity, TableSize;
    if added == 0 {
      NothingGrown(sizes, size, factor, count);
    } else {
      var before := GrownBy(sizes, size, added - 1, factor);
      GrowingKeepsLoad(sizes, size, added - 1, factor);
      GrowingIsLeast(sizes, size, added - 1, factor, count);
      OneGrowthIsLeast(before, size + added - 1, factor, count);
    }
  }

  lemma NothingGrown(sizes: Sizes, size: nat, factor: real, count: nat)
    requires factor > 0.0 && WithinLoad(sizes.count, size, factor) && TableSize(count)
    ensures sizes.count <= count ==> size <= LoadCapacity(count, factor)
  {
    hide LoadCapacity;
    if 0 < sizes.count <= count {
      LargerHoldsMore(sizes.count, count, factor);
    }
  }

  lemma OneGrowthIsLeast(sizes: Sizes, size: nat, factor: real, count: nat)
    requires factor >= 0.125 && WithinLoad(sizes.count, size, factor) && TableSize(count)
    requires sizes.capacity == CapacityFor(sizes.count, factor)
    ensures Grown(sizes, size, factor).count <= count <==>
      sizes.count <= count && size + 1 <= LoadCapacity(count, factor)
  {
    hide LoadCapacity, GrownCount;
    var grown := GrownCount(sizes.count, sizes.capacity, size);
    GrowthIsLeast(sizes.count, sizes.capacity, size, count);
    GrowthSuffices(sizes.count, size, factor);
    if grown <= count {
      LargerHoldsMore(grown, count, factor);
    }
  }

  /** Copying ends in the least table that reserving asks for and that may hold the elements. */
  lemma CopyingIsLeast(size: nat, factor: real, count: nat)
    requires factor >= 0.125 && size > 0 && TableSize(count)
    ensures Copied(size, factor).count <= count <==>
      count as real * factor > size as real && size <= LoadCapacity(count, factor)
  {
    hide LoadCapacity, CountForElements, RehashTarget, GrownBy, TableSize;
    var start := RehashTarget(CountForElements(size, factor), 0, factor);
    SafeRehashRestoresLoad(CountForElements(size, factor), 0, factor);
    GrowingIsLeast(Sizes(start, CapacityFor(start, factor)), 0, size, factor, count);
    ReserveTargetIsLeast(size, 0, factor, count);
  }

  /** Where `reserve` is kept, copying allocates once. */
  lemma CopyingIsReserved(size: nat, factor: real)
    requires factor > 0.0 && size > 0 && ReserveIsKept(size, factor)
    ensures Copied(size, factor).count == CountForElements(size, factor)
  {
    hide LoadCapacity, CountForElements, ReserveIsKept;
    var start := RehashTarget(CountForElements(size, factor), 0, factor);
    ReserveSuffices(size, 0, factor);
    GrowingIsMonotone(Sizes(start, CapacityFor(start, factor)), 0, size, factor);
  }
}
