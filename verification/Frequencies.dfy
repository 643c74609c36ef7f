/** Frequency tables as values: the list of source (non-cumulative) frequencies. The
    in-place table of frequency_table.c is proved to refine these in FrequencyTables. */
module Frequencies {
  import Arithmetic

  // size of the coder's range and the bound it puts on a table's total (constants.c)
  const FULL_RANGE: nat := 0x1_0000_0000
  const HALF_RANGE: nat := 0x8000_0000
  const QUARTER_RANGE: nat := 0x4000_0000
  const MIN_RANGE: nat := QUARTER_RANGE + 2
  const MAX_TOTAL_UNCAPPED: nat := 0xFFFF_FFFF_FFFF_FFFF / FULL_RANGE
  const MAX_TOTAL: nat := if MAX_TOTAL_UNCAPPED > MIN_RANGE then MIN_RANGE else MAX_TOTAL_UNCAPPED

  type Freqs = seq<nat>

  /** How many counts lie below symbol `s`. */
  function Low(f: Freqs, s: nat): nat
    requires s <= |f|
  {
    if s == 0 then 0 else Low(f, s - 1) + f[s - 1]
  }

  function High(f: Freqs, s: nat): nat
    requires s < |f|
  {
    Low(f, s + 1)
  }

  function Total(f: Freqs): nat {
    Low(f, |f|)
  }

  lemma {:induction false} LowMonotone(f: Freqs, a: nat, b: nat)
    requires a <= b <= |f|
    ensures Low(f, a) <= Low(f, b)
    decreases b
  {
    if a < b {
      LowMonotone(f, a, b - 1);
    }
  }

  lemma {:induction false} LowOfUpdate(f: Freqs, i: nat, x: nat, s: nat)
    requires i < |f| && s <= |f|
    ensures Low(f[i := x], s) == if i < s then Low(f, s) - f[i] + x else Low(f, s)
  {
    if s > 0 {
      LowOfUpdate(f, i, x, s - 1);
    }
  }

  /** The one symbol whose share [low, high) of the cumulative range holds `value`. */
  function FindFrom(f: Freqs, value: nat, s: nat): (r: nat)
    requires s <= |f| && Low(f, s) <= value < Total(f)
    ensures r < |f| && Low(f, r) <= value < High(f, r)
    decreases |f| - s
  {
    LowMonotone(f, s, |f|);
    if value < Low(f, s + 1) then s else FindFrom(f, value, s + 1)
  }

  function Find(f: Freqs, value: nat): (r: nat)
    requires value < Total(f)
    ensures r < |f| && Low(f, r) <= value < High(f, r)
  {
    FindFrom(f, value, 0)
  }

  /** Zero-frequency neighbours have an empty share, so the owner of a value is unique. */
  lemma FindUnique(f: Freqs, value: nat, s: nat)
    requires s < |f| && Low(f, s) <= value < High(f, s)
    ensures value < Total(f) && Find(f, value) == s && f[s] > 0
  {
    LowMonotone(f, s + 1, |f|);
    var r := Find(f, value);
    if r < s {
      LowMonotone(f, r + 1, s);
    } else if s < r {
      LowMonotone(f, s + 1, r);
    }
  }

  // ---------------------------------------------------------------- halving

  function Halve(f: Freqs): (h: Freqs)
    ensures |h| == |f|
    ensures forall i | 0 <= i < |f| :: h[i] == (f[i] + 1) / 2 && (h[i] > 0 <==> f[i] > 0)
  {
    seq(|f|, i requires 0 <= i < |f| => (f[i] + 1) / 2)
  }

  /** How many of the first `s` symbols have a positive frequency. */
  function PositiveBelow(f: Freqs, s: nat): nat
    requires s <= |f|
  {
    if s == 0 then 0 else PositiveBelow(f, s - 1) + if f[s - 1] > 0 then 1 else 0
  }

  function PositiveCount(f: Freqs): nat {
    PositiveBelow(f, |f|)
  }

  lemma {:induction false} HalveShrinks(f: Freqs, s: nat)
    requires s <= |f|
    ensures PositiveBelow(Halve(f), s) == PositiveBelow(f, s)
    ensures PositiveBelow(f, s) <= Low(Halve(f), s) <= Low(f, s)
    ensures PositiveBelow(f, s) < Low(f, s) ==> Low(Halve(f), s) < Low(f, s)
    ensures PositiveBelow(f, s) <= s
  {
    if s > 0 {
      HalveShrinks(f, s - 1);
    }
  }

  /** The halving loop; it ends exactly when `limit` exceeds the number of symbols in use. */
  function HalveUntil(f: Freqs, limit: nat): (h: Freqs)
    requires PositiveCount(f) < limit
    ensures |h| == |f| && Total(h) < limit && Total(h) <= Total(f) && PositiveCount(h) == PositiveCount(f)
    ensures forall i | 0 <= i < |f| :: h[i] > 0 <==> f[i] > 0
    decreases Total(f)
  {
    if Total(f) >= limit then
      HalveShrinks(f, |f|);
      HalveUntil(Halve(f), limit)
    else f
  }

  function HalveTimes(f: Freqs, n: nat): (h: Freqs)
    ensures |h| == |f|
  {
    if n == 0 then f else Halve(HalveTimes(f, n - 1))
  }

  /** With a limit no larger than the number of symbols in use no amount of halving brings
      the total below it; with a larger limit some amount does. */
  lemma {:induction false} HalvingNeverEnds(f: Freqs, limit: nat, n: nat)
    requires limit <= PositiveCount(f)
    ensures PositiveCount(HalveTimes(f, n)) == PositiveCount(f)
    ensures Total(HalveTimes(f, n)) >= limit
  {
    if n == 0 {
      HalveShrinks(f, |f|);
    } else {
      HalvingNeverEnds(f, limit, n - 1);
      HalveShrinks(HalveTimes(f, n - 1), |f|);
    }
  }

  lemma {:induction false} HalveTimesShift(f: Freqs, n: nat)
    ensures HalveTimes(Halve(f), n) == HalveTimes(f, n + 1)
  {
    if n > 0 {
      HalveTimesShift(f, n - 1);
    }
  }

  /** So many halvings are needed to get below the limit, and no fewer. */
  predicate LeastHalvings(f: Freqs, limit: nat, n: nat) {
    Total(HalveTimes(f, n)) < limit && forall m: nat | m < n :: Total(HalveTimes(f, m)) >= limit
  }

  lemma {:induction false} HalvingEnds(f: Freqs, limit: nat) returns (n: nat)
    requires PositiveCount(f) < limit
    ensures HalveUntil(f, limit) == HalveTimes(f, n) && LeastHalvings(f, limit, n)
    decreases Total(f)
  {
    if Total(f) >= limit {
      HalveShrinks(f, |f|);
      var k := HalvingEnds(Halve(f), limit);
      HalveTimesShift(f, k);
      n := k + 1;
      forall m: nat | m < n ensures Total(HalveTimes(f, m)) >= limit {
        if m > 0 {
          HalveTimesShift(f, m - 1);
        }
      }
    } else {
      n := 0;
    }
  }

  /** The loop stops at the least number of halvings that is enough, and at no other. */
  lemma HalveUntilExactly(f: Freqs, limit: nat, n: nat)
    requires PositiveCount(f) < limit
    ensures LeastHalvings(f, limit, n) ==> HalveUntil(f, limit) == HalveTimes(f, n)
  {
    var k := HalvingEnds(f, limit);
    var atLeast, enough := Total(HalveTimes(f, n)), Total(HalveTimes(f, k));
    assert LeastHalvings(f, limit, n) && atLeast < limit && enough < limit ==> !(n < k) && !(k < n);
  }

  /** The quotient, rounded up. */
  function CeilingOf(x: nat, d: nat): nat
    requires d > 0
  {
    (x + d - 1) / d
  }

  lemma CeilingTwice(x: nat, d: nat)
    requires d > 0
    ensures (CeilingOf(x, d) + 1) / 2 == CeilingOf(x, 2 * d)
  {
    var c := CeilingOf(x, d);
    var r := (x + d - 1) % d;
    assert c * d + r == x + d - 1;
    var h, b := (c + 1) / 2, (c + 1) % 2;
    assert (2 * h + b) * d == h * (2 * d) + b * d;
    assert x + 2 * d - 1 == h * (2 * d) + (b * d + r);
    Arithmetic.MulMonotone(b, 1, d);
    Arithmetic.DivModUnique(h, b * d + r, 2 * d);
  }

  /** Halving so many times divides each frequency by a power of two, rounding up once. */
  lemma {:induction false} HalveTimesAt(f: Freqs, n: nat, i: nat)
    requires i < |f|
    ensures HalveTimes(f, n)[i] == CeilingOf(f[i], Arithmetic.Pow2(n))
  {
    if n > 0 {
      HalveTimesAt(f, n - 1, i);
      CeilingTwice(f[i], Arithmetic.Pow2(n - 1));
    }
  }

  /** The halving loop terminates if and only if the limit exceeds the symbols in use. */
  lemma HalvingTerminatesExactly(f: Freqs, limit: nat)
    ensures (exists n: nat :: Total(HalveTimes(f, n)) < limit) <==> PositiveCount(f) < limit
  {
    if PositiveCount(f) < limit {
      var n := HalvingEnds(f, limit);
    } else {
      forall n: nat ensures Total(HalveTimes(f, n)) >= limit {
        HalvingNeverEnds(f, limit, n);
      }
    }
  }

  // ---------------------------------------------------------------- adaptive tables

  function Increment(f: Freqs, s: nat): (g: Freqs)
    requires s < |f| && PositiveCount(f) < MAX_TOTAL
  {
    var h := HalveUntil(f, MAX_TOTAL);
    h[s := h[s] + 1]
  }

  /** Whatever the table held, an increment leaves a total the coder accepts, the symbol encodable,
      and every other symbol encodable exactly if it was. */
  lemma IncrementKeeps(f: Freqs, s: nat)
    requires s < |f| && PositiveCount(f) < MAX_TOTAL
    ensures var g := Increment(f, s);
            && |g| == |f| && Total(g) <= MAX_TOTAL && g[s] > 0
            && forall i | 0 <= i < |f| && i != s :: g[i] > 0 <==> f[i] > 0
  {
    var h := HalveUntil(f, MAX_TOTAL);
    LowOfUpdate(h, s, h[s] + 1, |h|);
  }

  /** An increment divides all frequencies by the least power of two that brings the total below the limit, rounding up,
      and then adds one to that of the symbol; below the limit nothing is divided. */
  lemma IncrementExactly(f: Freqs, s: nat) returns (n: nat)
    requires s < |f| && PositiveCount(f) < MAX_TOTAL
    ensures LeastHalvings(f, MAX_TOTAL, n) && (Total(f) < MAX_TOTAL ==> n == 0)
    ensures forall i | 0 <= i < |f| ::
              Increment(f, s)[i] == CeilingOf(f[i], Arithmetic.Pow2(n)) + if i == s then 1 else 0
    ensures Total(f) < MAX_TOTAL ==> Increment(f, s) == f[s := f[s] + 1]
  {
    n := HalvingEnds(f, MAX_TOTAL);
    forall i | 0 <= i < |f|
      ensures Increment(f, s)[i] == CeilingOf(f[i], Arithmetic.Pow2(n)) + if i == s then 1 else 0
    {
      HalveTimesAt(f, n, i);
    }
    assert HalveTimes(f, 0) == f;
    assert Total(f) < MAX_TOTAL ==> n == 0;
  }

  /** A table filled from given frequencies, with an end symbol counted once on top if it has one. */
  function FilledFrom(source: Freqs, includeEof: bool): (g: Freqs)
    requires |source| + (if includeEof then 1 else 0) < MAX_TOTAL
  {
    PositiveAtMostLength(source + [0]);
    if includeEof then Increment(source + [0], |source|) else source
  }

  /** Without an end symbol nothing is halved, so the total is within the limit only if it was given so. */
  lemma FillWithinLimitExactly(source: Freqs, includeEof: bool)
    requires |source| + (if includeEof then 1 else 0) < MAX_TOTAL
    ensures Total(FilledFrom(source, includeEof)) <= MAX_TOTAL <==> includeEof || Total(source) <= MAX_TOTAL
  {
    PositiveAtMostLength(source + [0]);
    if includeEof {
      IncrementKeeps(source + [0], |source|);
    }
  }

  /** The table after some symbols were counted. */
  function Incremented(f: Freqs, symbols: seq<nat>): (g: Freqs)
    requires |f| < MAX_TOTAL && forall i | 0 <= i < |symbols| :: symbols[i] < |f|
    ensures |g| == |f|
  {
    if symbols == [] then f
    else
      var before := Incremented(f, symbols[..|symbols| - 1]);
      PositiveAtMostLength(before);
      Increment(before, symbols[|symbols| - 1])
  }

  /** In every run of increments the total is within the limit from the first increment on; before that, exactly if it
      was at the start. Symbols in use stay in use, and exactly the ones counted join them. */
  lemma {:induction false} RunWithinLimitExactly(f: Freqs, symbols: seq<nat>)
    requires |f| < MAX_TOTAL && forall i | 0 <= i < |symbols| :: symbols[i] < |f|
    ensures Total(Incremented(f, symbols)) <= MAX_TOTAL <==> symbols != [] || Total(f) <= MAX_TOTAL
    ensures forall i | 0 <= i < |f| :: Incremented(f, symbols)[i] > 0 <==> f[i] > 0 || i in symbols
    decreases |symbols|
  {
    if symbols != [] {
      var most, last := symbols[..|symbols| - 1], symbols[|symbols| - 1];
      RunWithinLimitExactly(f, most);
      PositiveAtMostLength(Incremented(f, most));
      IncrementKeeps(Incremented(f, most), last);
      assert symbols == most + [last];
    }
  }

  lemma TotalOfUpdate(f: Freqs, s: nat)
    requires s < |f|
    ensures Total(f[s := f[s] + 1]) == Total(f) + 1
  {
    LowOfUpdate(f, s, f[s] + 1, |f|);
  }

  /** As long as no halving is due, the table counts how often each symbol occurred. */
  lemma {:induction false} RunCounts(f: Freqs, symbols: seq<nat>)
    requires |f| < MAX_TOTAL && forall i | 0 <= i < |symbols| :: symbols[i] < |f|
    requires Total(f) + |symbols| <= MAX_TOTAL
    ensures forall i | 0 <= i < |f| :: Incremented(f, symbols)[i] == f[i] + multiset(symbols)[i]
    ensures Total(Incremented(f, symbols)) == Total(f) + |symbols|
    decreases |symbols|
  {
    if symbols != [] {
      hide Increment, HalveTimes, Total;
      var most, last := symbols[..|symbols| - 1], symbols[|symbols| - 1];
      RunCounts(f, most);
      var before := Incremented(f, most);
      PositiveAtMostLength(before);
      var n := IncrementExactly(before, last);
      TotalOfUpdate(before, last);
      assert symbols == most + [last];
    }
  }

  predicate AllPositive(f: Freqs) {
    forall i | 0 <= i < |f| :: f[i] > 0
  }

  /** What every one-initialised adaptive table keeps: each symbol stays encodable. */
  predicate IsAdaptive(f: Freqs) {
    0 < |f| < MAX_TOTAL && AllPositive(f) && 0 < Total(f) <= MAX_TOTAL
  }

  type Table = f: Freqs | IsAdaptive(f) witness [1]

  lemma PositiveAtMostLength(f: Freqs)
    ensures PositiveCount(f) <= |f|
  {
    HalveShrinks(f, |f|);
  }

  function Bump(t: Table, s: nat): (u: Table)
    requires s < |t|
    ensures |u| == |t|
  {
    PositiveAtMostLength(t);
    IncrementKeeps(t, s);
    LowMonotone(Increment(t, s), 1, |t|);
    Increment(t, s)
  }

  /** A table of `n` symbols initialised to one. */
  function Ones(n: nat): (t: Table)
    requires 0 < n < MAX_TOTAL
    ensures |t| == n
  {
    var f: Freqs := seq(n, _ => 1);
    OnesTotal(n, n);
    f
  }

  lemma {:induction false} OnesTotal(n: nat, s: nat)
    requires s <= n
    ensures Low(seq(n, _ => 1), s) == s
  {
    if s > 0 {
      OnesTotal(n, s - 1);
    }
  }
}
