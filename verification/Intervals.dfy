/** The coder's interval and its three moves (arithmetic_coding_base.c), read as integer
    arithmetic: low and high are 32-bit numbers, so masking with ACOD_STATE_MASK is `% FULL_RANGE`
    and testing the top bit is comparing with HALF_RANGE. */
module Intervals {
  import opened Arithmetic
  import opened Bitwise
  import opened Common
  import opened Frequencies

  datatype Interval = Interval(low: int, high: int) {
    predicate Valid() {
      0 <= low <= high < FULL_RANGE
    }

    function Width(): nat
      requires Valid()
    {
      high - low + 1
    }

    /** The top bits agree. */
    predicate Shiftable() {
      (low >= HALF_RANGE) == (high >= HALF_RANGE)
    }

    /** The second highest bit is set in low and clear in high. */
    predicate Underflowable() {
      low % HALF_RANGE >= QUARTER_RANGE && high % HALF_RANGE < QUARTER_RANGE
    }

    predicate Normalized() {
      0 <= low < HALF_RANGE <= high < FULL_RANGE && !Underflowable()
    }

    function TopBit(): bit {
      if low >= HALF_RANGE then 1 else 0
    }

    function Shift(): Interval {
      Interval((2 * low) % FULL_RANGE, (2 * high) % FULL_RANGE + 1)
    }

    function Underflow(): Interval
      requires low < HALF_RANGE <= high && Underflowable()
    {
      Interval(2 * low - HALF_RANGE, 2 * (high - HALF_RANGE) + HALF_RANGE + 1)
    }
  }

  const FULL_INTERVAL := Interval(0, FULL_RANGE - 1)

  /** A table and symbol the coder can code: the symbol's share is not empty. */
  predicate Encodable(f: Freqs, s: nat) {
    s < |f| && f[s] > 0 && Total(f) <= MAX_TOTAL
  }

  /** Adaptive tables can code every symbol. */
  lemma AdaptiveEncodable(t: Table, s: nat)
    requires s < |t|
    ensures Encodable(t, s)
  {
  }

  function Scale(range: nat, total: nat, x: nat): nat
    requires total > 0
  {
    x * range / total
  }

  function Shrink(iv: Interval, f: Freqs, s: nat): Interval
    requires iv.Valid() && s < |f| && Total(f) > 0
  {
    Interval(iv.low + Scale(iv.Width(), Total(f), Low(f, s)),
             iv.low + Scale(iv.Width(), Total(f), High(f, s)) - 1)
  }

  // ---------------------------------------------------------------- arithmetic

  lemma DivBounds(x: nat, t: nat)
    requires t > 0
    ensures (x / t) * t <= x < (x / t) * t + t
  {
  }

  lemma DivAtLeast(x: nat, q: nat, t: nat)
    requires t > 0
    ensures q <= x / t <==> q * t <= x
  {
    DivBounds(x, t);
    if q <= x / t {
      MulMonotone(q, x / t, t);
    } else {
      MulMonotone(x / t + 1, q, t);
      assert (x / t + 1) * t == (x / t) * t + t;
    }
  }

  /** Scaling by range >= total keeps distinct cumulative counts distinct and stays in range. */
  lemma ScaleGrows(range: nat, total: nat, a: nat, b: nat)
    requires 0 < total <= range && a < b <= total
    ensures Scale(range, total, a) < Scale(range, total, b) <= range
  {
    var p, q := a * range, b * range;
    assert q >= p + total by {
      MulMonotone(a + 1, b, range);
      assert (a + 1) * range == p + range;
    }
    DivBounds(p, total);
    assert (p / total + 1) * total == (p / total) * total + total;
    DivAtLeast(q, p / total + 1, total);
    assert q <= range * total by {
      MulMonotone(b, total, range);
      assert total * range == range * total;
    }
    assert (range + 1) * total == range * total + total;
    DivAtLeast(q, range + 1, total);
  }

  /** The decoder's estimate falls in [low, high) counts exactly when the offset falls in the scaled share. */
  lemma EstimateExact(range: nat, total: nat, offset: nat, x: nat)
    requires 0 < total && 0 < range
    ensures x <= Quotient(Numerator(offset, total), range) <==> Scale(range, total, x) <= offset
  {
    var y, num := x * range, (offset + 1) * total;
    DivAtLeast(num - 1, x, range);
    DivAtLeast(y, offset + 1, total);
  }

  // ---------------------------------------------------------------- shrinking

  /** What the coder relies on: for a share that is not empty the new interval is not empty and lies inside. */
  lemma ShrinkInside(iv: Interval, f: Freqs, s: nat)
    requires iv.Valid() && s < |f| && f[s] > 0 && Total(f) <= iv.Width()
    ensures Total(f) > 0
    ensures iv.low <= Shrink(iv, f, s).low <= Shrink(iv, f, s).high <= iv.high
  {
    LowMonotone(f, s + 1, |f|);
    ScaleGrows(iv.Width(), Total(f), Low(f, s), High(f, s));
  }

  lemma NormalizedWide(iv: Interval)
    requires iv.Normalized()
    ensures iv.Valid() && iv.Width() >= MIN_RANGE && MAX_TOTAL <= MIN_RANGE
  {
  }

  /** The share of a symbol is as wide as its frequency says, to less than one number. */
  lemma ShareProportional(iv: Interval, f: Freqs, s: nat)
    requires iv.Valid() && s < |f| && 0 < Total(f)
    ensures var share := Shrink(iv, f, s);
            var width, exact := share.high - share.low + 1, f[s] * iv.Width();
            exact - Total(f) < width * Total(f) < exact + Total(f)
  {
    Difference(Low(f, s) * iv.Width(), High(f, s) * iv.Width(), Total(f));
    assert High(f, s) * iv.Width() == Low(f, s) * iv.Width() + f[s] * iv.Width();
  }

  /** Rounding two quotients down changes their difference by less than one. */
  lemma Difference(p: nat, q: nat, t: nat)
    requires t > 0
    ensures q - p - t < (q / t - p / t) * t < q - p + t
  {
    DivBounds(p, t);
    DivBounds(q, t);
    assert (q / t - p / t) * t == (q / t) * t - (p / t) * t;
  }

  /** Adjacent symbols get adjacent intervals; the first starts at low and the last ends at high. */
  lemma SharesPartition(iv: Interval, f: Freqs, s: nat)
    requires iv.Valid() && s < |f| && 0 < Total(f) <= iv.Width()
    ensures s == 0 ==> Shrink(iv, f, s).low == iv.low
    ensures s + 1 < |f| ==> Shrink(iv, f, s + 1).low == Shrink(iv, f, s).high + 1
    ensures s + 1 == |f| ==> Shrink(iv, f, s).high == iv.high
  {
    if s + 1 == |f| {
      var t, w := Total(f), iv.Width();
      DivAtLeast(t * w, w, t);
      DivAtLeast(t * w, w + 1, t);
      assert (w + 1) * t == w * t + t;
    }
  }

  /** The symbol the decoder finds is the one whose interval holds the code. */
  lemma EstimateFindsSymbol(iv: Interval, f: Freqs, s: nat, code: nat)
    requires iv.Valid() && s < |f| && iv.low <= code <= iv.high && 0 < Total(f) <= iv.Width()
    ensures Estimate(iv, f, code) < Total(f)
    ensures Shrink(iv, f, s).low <= code <= Shrink(iv, f, s).high <==> Low(f, s) <= Estimate(iv, f, code) < High(f, s)
  {
    var w, t, offset := iv.Width(), Total(f), code - iv.low;
    EstimateExact(w, t, offset, Low(f, s));
    EstimateExact(w, t, offset, High(f, s));
    EstimateExact(w, t, offset, t);
    DivAtLeast(t * w, w, t);
    assert w * t == t * w;
  }

  function Estimate(iv: Interval, f: Freqs, code: nat): nat
    requires iv.Valid() && iv.low <= code <= iv.high && Total(f) > 0
  {
    Quotient(Numerator(code - iv.low, Total(f)), iv.Width())
  }

  function Quotient(x: nat, t: nat): nat
    requires t > 0
  {
    x / t
  }

  function Numerator(offset: nat, total: nat): nat
    requires total > 0
  {
    MulMonotone(1, offset + 1, total);
    (offset + 1) * total - 1
  }

  /** No product the coder forms leaves 64 bits. */
  lemma ProductsFit(iv: Interval, f: Freqs, s: nat, code: nat)
    requires iv.Valid() && s < |f| && iv.low <= code <= iv.high && Total(f) <= MAX_TOTAL
    ensures High(f, s) * iv.Width() < 0x1_0000_0000_0000_0000
    ensures (code - iv.low + 1) * Total(f) < 0x1_0000_0000_0000_0000
  {
    LowMonotone(f, s + 1, |f|);
    MulMonotone(High(f, s), MAX_TOTAL, iv.Width());
    MulMonotone(iv.Width(), FULL_RANGE, MAX_TOTAL);
    MulMonotone(code - iv.low + 1, FULL_RANGE, Total(f));
    MulMonotone(Total(f), MAX_TOTAL, FULL_RANGE);
  }

  // ---------------------------------------------------------------- the strict assert

  /** Every symbol of frequency one keeps low strictly below high. */
  predicate StrictForAll(range: nat, total: nat)
    requires total > 0
  {
    forall x: nat | x < total :: StrictAt(range, total, x)
  }

  predicate StrictAt(range: nat, total: nat, x: nat)
    requires total > 0
  {
    Scale(range, total, x) < Scale(range, total, x + 1) - 1
  }

  lemma {:induction false} StrictSum(range: nat, total: nat, x: nat)
    requires 0 < total && x <= total && StrictForAll(range, total)
    ensures Scale(range, total, x) >= 2 * x
  {
    if x > 0 {
      StrictSum(range, total, x - 1);
      assert StrictAt(range, total, x - 1);
    }
  }

  lemma TwiceTotalIsNeeded(range: nat, total: nat)
    requires 0 < total && StrictForAll(range, total)
    ensures 2 * total <= range
  {
    StrictSum(range, total, total);
    DivAtLeast(total * range, range + 1, total);
    assert (range + 1) * total == total * range + total;
  }

  lemma TwiceTotalIsEnough(range: nat, total: nat, x: nat)
    requires 0 < total && 2 * total <= range
    ensures StrictAt(range, total, x)
  {
    var p := x * range;
    assert (x + 1) * range == p + range;
    DivBounds(p, total);
    assert (p / total + 2) * total == (p / total) * total + 2 * total;
    DivAtLeast(p + range, p / total + 2, total);
  }

  /** In terms of one range and consecutive counts. */
  lemma StrictCountsExactly(range: nat, total: nat)
    requires 0 < total
    ensures StrictForAll(range, total) <==> 2 * total <= range
  {
    if StrictForAll(range, total) {
      TwiceTotalIsNeeded(range, total);
    }
    if 2 * total <= range {
      forall x: nat | x < total ensures StrictAt(range, total, x) {
        TwiceTotalIsEnough(range, total, x);
      }
    }
  }

  /** What can be coded in an interval between coding steps with a table of this total. */
  predicate StrictCase(iv: Interval, f: Freqs, s: nat, total: nat) {
    iv.Normalized() && iv.Valid() && Total(f) == total > 0 && s < |f| && f[s] > 0
  }

  /** The narrowest interval between coding steps. */
  const NARROWEST := Interval(QUARTER_RANGE - 1, HALF_RANGE)

  lemma TotalOfThree(a: nat, b: nat, c: nat)
    ensures var f: Freqs := [a, b, c]; Low(f, 1) == a && High(f, 1) == a + b && Total(f) == a + b + c
  {
    var f: Freqs := [a, b, c];
    assert Low(f, 1) == Low(f, 0) + f[0];
    assert Low(f, 2) == Low(f, 1) + f[1];
    assert Low(f, 3) == Low(f, 2) + f[2];
  }

  lemma NarrowestNeedsTwice(total: nat)
    requires 0 < total <= MAX_TOTAL
    requires forall f: Freqs, s: nat | StrictCase(NARROWEST, f, s, total) ::
               Shrink(NARROWEST, f, s).low < Shrink(NARROWEST, f, s).high
    ensures 2 * total <= MIN_RANGE
  {
    forall x: nat | x < total ensures StrictAt(MIN_RANGE, total, x) {
      var f: Freqs := [x, 1, total - 1 - x];
      TotalOfThree(x, 1, total - 1 - x);
      assert StrictCase(NARROWEST, f, 1, total);
    }
    StrictCountsExactly(MIN_RANGE, total);
  }

  lemma TwiceIsEnough(iv: Interval, f: Freqs, s: nat, total: nat)
    requires 2 * total <= MIN_RANGE && StrictCase(iv, f, s, total)
    ensures Shrink(iv, f, s).low < Shrink(iv, f, s).high
  {
    NormalizedWide(iv);
    LowMonotone(f, s + 1, |f|);
    TwiceTotalIsEnough(iv.Width(), total, Low(f, s));
    if f[s] > 1 {
      ScaleGrows(iv.Width(), total, Low(f, s) + 1, High(f, s));
    }
  }

  // ---------------------------------------------------------------- shift and underflow

  /** A shift drops the shared top bit and exactly doubles the width. */
  lemma ShiftDoubles(iv: Interval)
    requires iv.Valid() && iv.Shiftable()
    ensures iv.Shift() == Interval(2 * iv.low - iv.TopBit() * FULL_RANGE, 2 * iv.high - iv.TopBit() * FULL_RANGE + 1)
    ensures iv.Shift().Valid() && iv.Shift().Width() == 2 * iv.Width()
  {
  }

  /** An underflow step keeps the interval astride the middle and exactly doubles the width. */
  lemma UnderflowDoubles(iv: Interval)
    requires 0 <= iv.low < HALF_RANGE <= iv.high < FULL_RANGE && iv.Underflowable()
    ensures var u := iv.Underflow();
            0 <= u.low < HALF_RANGE <= u.high < FULL_RANGE && u.Width() == 2 * iv.Width()
  {
  }

  // ---------------------------------------------------------------- the operators on words

  lemma PowersAre32()
    ensures Pow2(30) == QUARTER_RANGE && Pow2(31) == HALF_RANGE && Pow2(32) == FULL_RANGE
  {
    assert Pow2(10) == 1024;
    assert Pow2(20) == 1048576;
    assert Pow2(30) == QUARTER_RANGE;
  }

  /** ((low ^ high) & HALF) == 0 says that the top bits agree. */
  lemma ShiftableIsXor(iv: Interval)
    requires iv.Valid()
    ensures And(Xor(iv.low, iv.high), HALF_RANGE) == 0 <==> iv.Shiftable()
  {
    hide And, Xor, Pow2, BitOf;
    PowersAre32();
    AndOneBit(Xor(iv.low, iv.high), 31);
    XorBits(iv.low, iv.high, 31);
    TopBitIsHalf(iv.low, 31);
    TopBitIsHalf(iv.high, 31);
  }

  /** (low & ~high & QUARTER) != 0, on 64-bit words, says that an underflow step is possible. */
  lemma UnderflowableIsAnd(iv: Interval)
    requires iv.Valid()
    ensures iv.high < Pow2(64)
    ensures And(And(iv.low, Not(iv.high, 64)), QUARTER_RANGE) != 0 <==> iv.Underflowable()
  {
    hide And, Pow2, BitOf;
    PowersAre32();
    Pow2Grows(32, 64);
    AndOneBit(And(iv.low, Not(iv.high, 64)), 30);
    AndBits(iv.low, Not(iv.high, 64), 30);
    NotBits(iv.high, 64, 30);
    BitIsRemainder(iv.low, 30);
    BitIsRemainder(iv.high, 30);
  }

  /** (low << 1) & MASK and ((high << 1) & MASK) | 1. */
  lemma ShiftIsMasked(iv: Interval)
    requires iv.Valid()
    ensures iv.Shift() == Interval(And(2 * iv.low, FULL_RANGE - 1), Or(And(2 * iv.high, FULL_RANGE - 1), 1))
    ensures iv.TopBit() == iv.low / HALF_RANGE
  {
    hide And, Or, Pow2;
    PowersAre32();
    AndMask(2 * iv.low, 32);
    AndMask(2 * iv.high, 32);
    Halves(0, iv.high);
    RemainderSplit(2 * iv.high, 31);
    JoinLowest(iv.high % HALF_RANGE, 1);
  }

  /** (low << 1) ^ HALF and ((high ^ HALF) << 1) | HALF | 1. */
  lemma UnderflowIsMasked(iv: Interval)
    requires 0 <= iv.low < HALF_RANGE <= iv.high < FULL_RANGE && iv.Underflowable()
    ensures iv.Underflow() ==
            Interval(Xor(2 * iv.low, HALF_RANGE), Or(Or(2 * Xor(iv.high, HALF_RANGE), HALF_RANGE), 1))
  {
    hide And, Or, Xor, Pow2, BitOf;
    PowersAre32();
    TopBitIsHalf(2 * iv.low, 31);
    XorSetBit(2 * iv.low, 31);
    TopBitIsHalf(iv.high, 31);
    XorSetBit(iv.high, 31);
    OrAbove(2 * (iv.high - HALF_RANGE), 1, 31);
    JoinLowest(iv.high - HALF_RANGE + QUARTER_RANGE, 1);
  }
}
