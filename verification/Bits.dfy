/**
 Unsigned machine arithmetic on natural numbers: powers of two, masks,
 exclusive or, and the roundings to a power of two that the table sizes need.
 */
module Bits {

  const TWO_TO_THE_64: nat := 0x1_0000_0000_0000_0000

  type Hash64 = h: nat | h < 0x1_0000_0000_0000_0000

  /** The value a 32-bit unsigned variable holds after being assigned `value`. */
  function Wrap32(value: nat): nat {
    value % 0x1_0000_0000
  }

  function Pow2(exponent: nat): (power: nat)
    ensures power >= 1
  {
    if exponent == 0 then 1 else 2 * Pow2(exponent - 1)
  }

  lemma {:induction false} Pow2Sum(left: nat, right: nat)
    ensures Pow2(left + right) == Pow2(left) * Pow2(right)
  {
    if left == 0 {
    } else {
      Pow2Sum(left - 1, right);
      assert 2 * (Pow2(left - 1) * Pow2(right)) == 2 * Pow2(left - 1) * Pow2(right);
    }
  }

  lemma {:induction false} Pow2Monotone(low: nat, high: nat)
    requires low <= high
    ensures Pow2(low) <= Pow2(high)
    ensures low < high ==> Pow2(low) < Pow2(high)
    decreases high
  {
    if low == high {
    } else {
      Pow2Monotone(low, high - 1);
    }
  }

  lemma Pow2Values()
    ensures Pow2(3) == 8
    ensures Pow2(64) == TWO_TO_THE_64
  {
    Pow2Of8();
    Pow2Square(8, 0x100);
    Pow2Square(16, 0x1_0000);
    Pow2Square(32, 0x1_0000_0000);
  }

  lemma Pow2Square(exponent: nat, power: nat)
    requires Pow2(exponent) == power
    ensures Pow2(2 * exponent) == power * power
  {
    Pow2Sum(exponent, exponent);
  }

  lemma Pow2Of8()
    ensures Pow2(3) == 8
    ensures Pow2(8) == 256
  {
    assert Pow2(4) == 2 * Pow2(3);
    assert Pow2(6) == 2 * Pow2(5);
  }

  // ---- powers of two as table sizes ----------------------------------------

  /** Number of trailing zero bits, `std::countr_zero`. */
  function CountrZero(value: nat): nat
    requires value > 0
  {
    if value % 2 == 1 then 0 else 1 + CountrZero(value / 2)
  }

  /** Exactly one bit of `value` is set. */
  ghost predicate PowerOfTwo(value: nat) {
    value > 0 && value == Pow2(CountrZero(value))
  }

  lemma {:induction false} Pow2IsPowerOfTwo(exponent: nat)
    ensures CountrZero(Pow2(exponent)) == exponent
    ensures PowerOfTwo(Pow2(exponent))
  {
    if exponent == 0 {
    } else {
      Pow2IsPowerOfTwo(exponent - 1);
    }
  }

  /** `std::bit_ceil`: the least power of two that is not below `value`. */
  function BitCeil(value: nat): nat
    requires value > 0
  {
    if value == 1 then 1 else 2 * BitCeil((value + 1) / 2)
  }

  /** The greatest power of two that is not above `value`. */
  function BitFloor(value: nat): nat
    requires value > 0
  {
    if value == 1 then 1 else 2 * BitFloor(value / 2)
  }

  lemma {:induction false} BitCeilIsLeast(value: nat)
    requires value > 0
    ensures PowerOfTwo(BitCeil(value)) && value <= BitCeil(value)
    ensures forall exponent: nat :: value <= Pow2(exponent) ==> BitCeil(value) <= Pow2(exponent)
  {
    if value == 1 {
      Pow2IsPowerOfTwo(0);
    } else {
      var half := (value + 1) / 2;
      BitCeilIsLeast(half);
      Pow2IsPowerOfTwo(CountrZero(BitCeil(half)) + 1);
      forall exponent: nat | value <= Pow2(exponent) ensures BitCeil(value) <= Pow2(exponent) {
        assert exponent > 0;
        assert half <= Pow2(exponent - 1);
      }
    }
  }

  lemma {:induction false} BitFloorIsGreatest(value: nat)
    requires value > 0
    ensures PowerOfTwo(BitFloor(value))
    ensures BitFloor(value) <= value < 2 * BitFloor(value)
  {
    if value == 1 {
      Pow2IsPowerOfTwo(0);
    } else {
      BitFloorIsGreatest(value / 2);
      Pow2IsPowerOfTwo(CountrZero(BitFloor(value / 2)) + 1);
    }
  }

  /** Rounding a count up overtakes `size` exactly when the count is above `BitFloor(size)`. */
  lemma BitCeilOvertakes(count: nat, size: nat)
    requires count > 0 && size > 0
    ensures BitCeil(count) > size <==> count > BitFloor(size)
  {
    BitCeilIsLeast(count);
    BitFloorIsGreatest(size);
    var exponent := CountrZero(BitFloor(size));
    if count > BitFloor(size) {
      var ceiling := CountrZero(BitCeil(count));
      if ceiling <= exponent { Pow2Monotone(ceiling, exponent); } else { Pow2Monotone(exponent + 1, ceiling); }
    } else {
      assert count <= Pow2(exponent);
    }
  }

  lemma BitCeilOfPower(value: nat)
    requires PowerOfTwo(value)
    ensures BitCeil(value) == value
  {
    BitCeilIsLeast(value);
    assert value <= Pow2(CountrZero(value));
  }

  // ---- masks ---------------------------------------------------------------

  function And(left: nat, right: nat): nat
    decreases left + right
  {
    if left == 0 || right == 0 then 0
    else 2 * And(left / 2, right / 2) + (if left % 2 == 1 && right % 2 == 1 then 1 else 0)
  }

  /** The lowest bit of an odd mask lets the lowest bit of a value through. */
  lemma AndOdd(value: nat, half: nat)
    requires value > 0 && half > 0
    ensures And(value, 2 * half - 1) == 2 * And(value / 2, half - 1) + value % 2
  {
    assert (2 * half - 1) / 2 == half - 1 && (2 * half - 1) % 2 == 1;
  }

  /** Reduction modulo `half`, with one more bit on either side. */
  lemma AndDouble(value: nat, half: nat)
    requires value > 0 && half > 0 && And(value / 2, half - 1) == (value / 2) % half
    ensures And(value, 2 * half - 1) == value % (2 * half)
  {
    AndOdd(value, half);
    ModDouble(value, half);
  }

  lemma AndZero(mask: nat)
    ensures And(0, mask) == 0 == 0 % (mask + 1)
  {
    ModUnique(0, mask + 1, 0, 0);
  }

  /** Masking with 2^k - 1 is reduction modulo 2^k. */
  lemma {:induction false} AndMask(value: nat, exponent: nat)
    ensures And(value, Pow2(exponent) - 1) == value % Pow2(exponent)
  {
    if value == 0 {
      AndZero(Pow2(exponent) - 1);
    } else if exponent == 0 {
      assert And(value, 0) == 0 == value % 1;
    } else {
      AndMask(value / 2, exponent - 1);
      AndDouble(value, Pow2(exponent - 1));
    }
  }

  lemma ModDouble(value: nat, half: nat)
    requires half > 0
    ensures value % (2 * half) == 2 * ((value / 2) % half) + value % 2
  {
    var q, r := (value / 2) / half, (value / 2) % half;
    assert value == 2 * (half * q + r) + value % 2;
    assert 2 * (half * q) == (2 * half) * q;
    ModUnique(value, 2 * half, q, 2 * r + value % 2);
  }

  lemma ProductAtLeast(left: nat, right: nat)
    requires left > 0
    ensures left * right >= right
  {
  }

  lemma ModUnique(value: nat, divisor: nat, quotient: nat, remainder: nat)
    requires value == divisor * quotient + remainder && remainder < divisor
    ensures value % divisor == remainder && value / divisor == quotient
  {
    var q, r := value / divisor, value % divisor;
    assert divisor * q + r == divisor * quotient + remainder;
    QuotientUnique(divisor, q, r, quotient, remainder);
  }

  lemma QuotientUnique(divisor: nat, q: nat, r: nat, quotient: nat, remainder: nat)
    requires divisor * q + r == divisor * quotient + remainder
    requires r < divisor && remainder < divisor
    ensures q == quotient && r == remainder
  {
    if q > quotient {
      assert divisor * (q - quotient) == divisor * q - divisor * quotient;
      ProductAtLeast(q - quotient, divisor);
    } else if q < quotient {
      assert divisor * (quotient - q) == divisor * quotient - divisor * q;
      ProductAtLeast(quotient - q, divisor);
    }
  }

  /** The masked successor used to walk the buckets is the circular one. */
  lemma MaskedSuccessor(index: nat, count: nat)
    requires PowerOfTwo(count) && index < count
    ensures And(index + 1, count - 1) == if index + 1 == count then 0 else index + 1
  {
    AndMask(index + 1, CountrZero(count));
    if index + 1 == count {
      ModUnique(index + 1, count, 1, 0);
    } else {
      ModUnique(index + 1, count, 0, index + 1);
    }
  }

  // ---- shifts --------------------------------------------------------------

  /** `value >> amount`. */
  function ShiftRight(value: nat, amount: nat): nat {
    if amount == 0 then value else ShiftRight(value / 2, amount - 1)
  }

  /** Shifting right by `amount` is dividing by 2^amount. */
  lemma {:induction false} ShiftDivides(value: nat, amount: nat)
    ensures Pow2(amount) * ShiftRight(value, amount) <= value < Pow2(amount) * (ShiftRight(value, amount) + 1)
    ensures ShiftRight(value, amount) == value / Pow2(amount)
  {
    if amount > 0 {
      ShiftDivides(value / 2, amount - 1);
      DoubleProducts(Pow2(amount - 1), ShiftRight(value, amount));
    }
    DivideWithin(value, Pow2(amount), ShiftRight(value, amount));
  }

  lemma DoubleProducts(power: nat, quotient: nat)
    ensures 2 * power * quotient == 2 * (power * quotient)
    ensures 2 * power * (quotient + 1) == 2 * (power * (quotient + 1))
  {
  }

  lemma DivideWithin(value: nat, divisor: nat, quotient: nat)
    requires divisor * quotient <= value < divisor * (quotient + 1)
    ensures divisor > 0 && value / divisor == quotient
  {
    assert divisor * (quotient + 1) == divisor * quotient + divisor;
    ModUnique(value, divisor, quotient, value - divisor * quotient);
  }

  /** A hash shifted right by 64 - k is scaled from the 64-bit range to `count == 2^k`. */
  lemma ShiftScales(hash: Hash64, count: nat)
    requires PowerOfTwo(count) && CountrZero(count) <= 64
    ensures ShiftRight(hash, 64 - CountrZero(count)) == hash * count / TWO_TO_THE_64
  {
    var rest := Pow2(64 - CountrZero(count));
    var home := ShiftRight(hash, 64 - CountrZero(count));
    Pow2Sum(CountrZero(count), 64 - CountrZero(count));
    Pow2Values();
    assert count * rest == TWO_TO_THE_64;
    ShiftDivides(hash, 64 - CountrZero(count));
    ScaleBounds(hash, count, rest, home);
    DivideWithin(hash * count, TWO_TO_THE_64, home);
  }

  lemma ScaleBounds(hash: nat, count: nat, rest: nat, home: nat)
    requires rest * home <= hash < rest * (home + 1) && count > 0
    ensures (count * rest) * home <= hash * count < (count * rest) * (home + 1)
  {
    assert (count * rest) * home == count * (rest * home);
    assert (count * rest) * (home + 1) == count * (rest * (home + 1));
    ScaleOrder(count, rest * home, hash);
    ScaleOrder(count, hash + 1, rest * (home + 1));
    assert count * (hash + 1) == count * hash + count;
  }

  lemma ScaleOrder(factor: nat, low: nat, high: nat)
    requires low <= high
    ensures factor * low <= factor * high
  {
    assert factor * (high - low) == factor * high - factor * low;
    assert factor * (high - low) >= 0;
  }

  lemma {:induction false} ShiftBound(value: nat, amount: nat, bound: nat)
    requires value < bound * Pow2(amount)
    ensures ShiftRight(value, amount) < bound
  {
    if amount > 0 {
      assert bound * (2 * Pow2(amount - 1)) == 2 * (bound * Pow2(amount - 1));
      ShiftBound(value / 2, amount - 1, bound);
    }
  }

  /** Shifting a 64-bit hash right by 64 - k leaves a number below 2^k. */
  lemma ShiftedHashBound(hash: Hash64, count: nat)
    requires PowerOfTwo(count) && CountrZero(count) <= 64
    ensures ShiftRight(hash, 64 - CountrZero(count)) < count
  {
    Pow2Sum(CountrZero(count), 64 - CountrZero(count));
    Pow2Values();
    ShiftBound(hash, 64 - CountrZero(count), count);
  }

  // ---- exclusive or --------------------------------------------------------

  function Xor(left: nat, right: nat): nat
    decreases left + right
  {
    if left == 0 then right
    else if right == 0 then left
    else 2 * Xor(left / 2, right / 2) + (left % 2 + right % 2) % 2
  }

  lemma XorStep(left: nat, right: nat)
    ensures Xor(left, right) / 2 == Xor(left / 2, right / 2)
    ensures Xor(left, right) % 2 == (left % 2 + right % 2) % 2
  {
  }

  lemma {:induction false} XorTwice(left: nat, right: nat)
    ensures Xor(Xor(left, right), right) == left
    decreases left + right
  {
    if right == 0 || left == 0 {
      XorSelf(right);
    } else {
      var once := Xor(left, right);
      var twice := Xor(once, right);
      XorTwice(left / 2, right / 2);
      XorStep(left, right);
      XorStep(once, right);
      SameHalves(twice, left);
    }
  }

  lemma SameHalves(left: nat, right: nat)
    requires left / 2 == right / 2 && left % 2 == right % 2
    ensures left == right
  {
  }

  lemma {:induction false} XorSelf(value: nat)
    ensures Xor(value, value) == 0
  {
    if value > 0 {
      XorSelf(value / 2);
    }
  }

  lemma {:induction false} XorShift(left: nat, right: nat, amount: nat)
    ensures ShiftRight(Xor(left, right), amount) == Xor(ShiftRight(left, amount), ShiftRight(right, amount))
    decreases amount
  {
    if amount > 0 {
      XorStep(left, right);
      XorShift(left / 2, right / 2, amount - 1);
    }
  }

  lemma {:induction false} XorBound(left: nat, right: nat, exponent: nat)
    requires left < Pow2(exponent) && right < Pow2(exponent)
    ensures Xor(left, right) < Pow2(exponent)
  {
    if exponent > 0 {
      XorStep(left, right);
      XorBound(left / 2, right / 2, exponent - 1);
    }
  }

  /** Bit number `index` of a value. */
  function BitOf(value: nat, index: nat): nat {
    value / Pow2(index) % 2
  }

  /** Exclusive or adds bit by bit, without carries. */
  lemma {:induction false} XorBits(left: nat, right: nat, index: nat)
    ensures BitOf(Xor(left, right), index) == (BitOf(left, index) + BitOf(right, index)) % 2
    decreases index
  {
    XorStep(left, right);
    if index > 0 {
      XorBits(left / 2, right / 2, index - 1);
      HalfBit(left, index);
      HalfBit(right, index);
      HalfBit(Xor(left, right), index);
    }
  }

  /** Numbers with the same bits are equal. */
  lemma {:induction false} BitsDecide(left: nat, right: nat)
    requires forall index: nat :: BitOf(left, index) == BitOf(right, index)
    ensures left == right
    decreases left + right
  {
    assert Pow2(0) == 1 && BitOf(left, 0) == BitOf(right, 0);
    if left + right > 0 {
      forall index: nat ensures BitOf(left / 2, index) == BitOf(right / 2, index) {
        HalfBit(left, index + 1);
        HalfBit(right, index + 1);
        assert BitOf(left, index + 1) == BitOf(right, index + 1);
      }
      BitsDecide(left / 2, right / 2);
    }
    SameHalves(left, right);
  }

  lemma HalfBit(value: nat, index: nat)
    requires index > 0
    ensures BitOf(value, index) == BitOf(value / 2, index - 1)
  {
    ShiftDivides(value, index);
    ShiftDivides(value / 2, index - 1);
  }

  lemma {:induction false} ShiftedBit(value: nat, amount: nat, index: nat)
    ensures BitOf(ShiftRight(value, amount), index) == BitOf(value, index + amount)
    decreases amount
  {
    if amount > 0 {
      ShiftedBit(value / 2, amount - 1, index);
      HalfBit(value, index + amount);
    }
  }

  lemma SmallShift(value: nat, exponent: nat)
    requires value < Pow2(exponent)
    ensures ShiftRight(value, exponent) == 0
  {
    ShiftBound(value, exponent, 1);
  }
}

/** The finalizer that spreads a possibly weak 64-bit hash over all its bits. */
module MixBits {
  import opened Bits

  /** One xor-shift round. */
  function Fold(value: Hash64): (folded: Hash64)
  {
    FoldBound(value);
    Xor(value, ShiftRight(value, 33))
  }

  /** A product kept to its low 64 bits. */
  function Times(value: Hash64, factor: Hash64): Hash64 {
    (value * factor) % TWO_TO_THE_64
  }

  function Mix(value: Hash64): Hash64 {
    Fold(Times(Fold(Times(Fold(value), 0xff51afd7ed558ccd)), 0xc4ceb9fe1a85ec53))
  }

  function Unmix(value: Hash64): Hash64 {
    Fold(Times(Fold(Times(Fold(value), 0x9cb4b2f8129337db)), 0x4f74430c22a54005))
  }

  lemma FoldBound(value: Hash64)
    ensures Xor(value, ShiftRight(value, 33)) < TWO_TO_THE_64
    ensures ShiftRight(value, 33) < Pow2(33)
  {
    Pow2Values();
    Pow2Sum(31, 33);
    Pow2Monotone(31, 33);
    Pow2Monotone(31, 64);
    ShiftBound(value, 33, Pow2(31));
    XorBound(value, ShiftRight(value, 33), 64);
  }

  /** Each bit is added to the one 33 places above it; the top bits stay. */
  lemma FoldBits(value: Hash64, index: nat)
    ensures BitOf(Fold(value), index) == (BitOf(value, index) + BitOf(value, index + 33)) % 2
  {
    XorBits(value, ShiftRight(value, 33), index);
    ShiftedBit(value, 33, index);
  }

  lemma FoldTwice(value: Hash64)
    ensures Fold(Fold(value)) == value
  {
    var high := ShiftRight(value, 33);
    FoldBound(value);
    XorShift(value, high, 33);
    SmallShift(high, 33);
    XorTwice(value, high);
  }

  /** Two factors whose product is 1 modulo 2^64 undo one another. */
  lemma TimesInvert(value: Hash64, factor: Hash64, inverse: Hash64, excess: nat)
    requires factor * inverse == 1 + excess * TWO_TO_THE_64
    ensures Times(Times(value, factor), inverse) == value
  {
    var whole := value * factor;
    var q := whole / TWO_TO_THE_64;
    var low := whole - q * TWO_TO_THE_64;
    assert low == Times(value, factor);
    assert low * inverse == whole * inverse - (q * inverse) * TWO_TO_THE_64;
    assert whole * inverse == value * (factor * inverse);
    assert value * (factor * inverse) == value + (value * excess) * TWO_TO_THE_64;
    assert low * inverse == value + (value * excess - q * inverse) * TWO_TO_THE_64;
  }

  /** Mixing is a bijection of the 64-bit values: Unmix undoes it on either side. */
  lemma MixIsBijective(value: Hash64)
    ensures Unmix(Mix(value)) == value
    ensures Mix(Unmix(value)) == value
  {
    MixThenUnmix(value);
    UnmixThenMix(value);
  }

  /** `folded` is `value` with each bit added, without carry, to the one 33 places above it. */
  ghost predicate IsFolded(value: nat, folded: nat) {
    forall index: nat :: BitOf(folded, index) == (BitOf(value, index) + BitOf(value, index + 33)) % 2
  }

  /** The finalizer, described by bits and products alone. */
  lemma MixMeaning(value: Hash64, a: Hash64, b: Hash64, c: Hash64, d: Hash64, e: Hash64)
    requires IsFolded(value, a) && b == a * 0xff51afd7ed558ccd % 0x1_0000_0000_0000_0000
    requires IsFolded(b, c) && d == c * 0xc4ceb9fe1a85ec53 % 0x1_0000_0000_0000_0000
    requires IsFolded(d, e)
    ensures Mix(value) == e
  {
    FoldIsFolded(value, a);
    FoldIsFolded(b, c);
    FoldIsFolded(d, e);
  }

  lemma FoldIsFolded(value: Hash64, folded: nat)
    ensures IsFolded(value, folded) <==> folded == Fold(value)
  {
    forall index: nat ensures BitOf(Fold(value), index) == (BitOf(value, index) + BitOf(value, index + 33)) % 2 {
      FoldBits(value, index);
    }
    if IsFolded(value, folded) {
      forall index: nat ensures BitOf(folded, index) == BitOf(Fold(value), index) {
        FoldBits(value, index);
      }
      BitsDecide(folded, Fold(value));
    }
  }

  lemma FactorExcess()
    returns (first: nat, second: nat)
    ensures 0xff51afd7ed558ccd * 0x4f74430c22a54005 == 1 + first * TWO_TO_THE_64
    ensures 0xc4ceb9fe1a85ec53 * 0x9cb4b2f8129337db == 1 + second * TWO_TO_THE_64
  {
    first := (0xff51afd7ed558ccd * 0x4f74430c22a54005) / TWO_TO_THE_64;
    second := (0xc4ceb9fe1a85ec53 * 0x9cb4b2f8129337db) / TWO_TO_THE_64;
  }

  lemma MixThenUnmix(value: Hash64)
    ensures Unmix(Mix(value)) == value
  {
    var first, second := FactorExcess();
    var a := Fold(value);
    var b := Times(a, 0xff51afd7ed558ccd);
    var c := Fold(b);
    var d := Times(c, 0xc4ceb9fe1a85ec53);
    FoldTwice(value); FoldTwice(b); FoldTwice(d);
    TimesInvert(a, 0xff51afd7ed558ccd, 0x4f74430c22a54005, first);
    TimesInvert(c, 0xc4ceb9fe1a85ec53, 0x9cb4b2f8129337db, second);
  }

  lemma UnmixThenMix(value: Hash64)
    ensures Mix(Unmix(value)) == value
  {
    var first, second := FactorExcess();
    var a := Fold(value);
    var b := Times(a, 0x9cb4b2f8129337db);
    var c := Fold(b);
    var d := Times(c, 0x4f74430c22a54005);
    FoldTwice(value); FoldTwice(b); FoldTwice(d);
    TimesInvert(a, 0x9cb4b2f8129337db, 0xc4ceb9fe1a85ec53, second);
    TimesInvert(c, 0x4f74430c22a54005, 0xff51afd7ed558ccd, first);
  }

  /** Mixing never makes two different raw hashes equal. */
  lemma MixIsInjective(left: Hash64, right: Hash64)
    ensures Mix(left) == Mix(right) <==> left == right
  {
    MixIsBijective(left);
    MixIsBijective(right);
  }

  /** `mix_bits`, step by step. */
  method MixBits(raw: Hash64) returns (value: Hash64)
    ensures value == Mix(raw)
  {
    value := raw;
    FoldBound(value);
    value := Xor(value, ShiftRight(value, 33));
    value := value * 0xff51afd7ed558ccd % 0x1_0000_0000_0000_0000;
    FoldBound(value);
    value := Xor(value, ShiftRight(value, 33));
    value := value * 0xc4ceb9fe1a85ec53 % 0x1_0000_0000_0000_0000;
    FoldBound(value);
    value := Xor(value, ShiftRight(value, 33));
  }
}
