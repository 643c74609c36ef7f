/** The bit stream of the arithmetic coder as a function of the interval and of the symbols
    still to come, and the place of the decoder's 32-bit window in it. */
module CodeStream {
  import opened Arithmetic
  import opened Common
  import opened Frequencies
  import opened Intervals

  /** One coding step: a symbol and the table it is coded with. */
  datatype AnyEvent = Event(freqs: Freqs, symbol: nat)
  type Event = e: AnyEvent | Encodable(e.freqs, e.symbol) witness Event([1], 0)

  // ---------------------------------------------------------------- steps stay valid

  lemma StepValid(iv: Interval)
    requires iv.Valid()
    ensures iv.Shiftable() ==> iv.Shift().Valid() && iv.Shift().high - iv.Shift().low > iv.high - iv.low
    ensures !iv.Shiftable() ==> 0 <= iv.low < HALF_RANGE <= iv.high
    ensures !iv.Shiftable() && iv.Underflowable() ==>
              iv.Underflow().Valid() && iv.Underflow().high - iv.Underflow().low > iv.high - iv.low
    ensures !iv.Shiftable() && !iv.Underflowable() ==> iv.Normalized()
  {
    if iv.Shiftable() {
      ShiftDoubles(iv);
    } else if iv.Underflowable() {
      UnderflowDoubles(iv);
    }
  }

  lemma ShrinkValid(iv: Interval, e: Event)
    requires iv.Normalized()
    ensures Total(e.freqs) > 0 && Shrink(iv, e.freqs, e.symbol).Valid()
  {
    NormalizedWide(iv);
    ShrinkInside(iv, e.freqs, e.symbol);
  }

  // ---------------------------------------------------------------- emitted bits

  /** Insert `pending` inverted copies of the first bit right behind it. */
  function Insert(bits: seq<bit>, pending: nat): (r: seq<bit>)
    requires |bits| > 0
    ensures |r| == |bits| + pending
  {
    [bits[0]] + Repeat(1 - bits[0], pending) + bits[1..]
  }

  /** The two bits that pin the last interval. */
  function FinalBits(iv: Interval): (r: seq<bit>)
    ensures |r| == 2
  {
    if iv.low < QUARTER_RANGE then [0, 1] else [1, 0]
  }

  /** All bits the coder emits from interval `iv` on with no pending bits: renormalization,
      the events `es`, and the final bits. */
  function Emit(iv: Interval, es: seq<Event>): (bits: seq<bit>)
    requires iv.Valid()
    ensures |bits| >= 2
    decreases |es|, FULL_RANGE - (iv.high - iv.low)
  {
    StepValid(iv);
    if iv.Shiftable() then [iv.TopBit()] + Emit(iv.Shift(), es)
    else if iv.Underflowable() then Insert(Emit(iv.Underflow(), es), 1)
    else if es == [] then FinalBits(iv)
    else
      ShrinkValid(iv, es[0]);
      Emit(Shrink(iv, es[0].freqs, es[0].symbol), es[1..])
  }

  lemma InsertTwice(bits: seq<bit>, a: nat, b: nat)
    requires |bits| > 0
    ensures Insert(Insert(bits, a), b) == Insert(bits, a + b)
  {
    assert Insert(bits, a)[1..] == Repeat(1 - bits[0], a) + bits[1..];
    assert Repeat(1 - bits[0], b) + Repeat(1 - bits[0], a) == Repeat(1 - bits[0], a + b);
  }

  // ---------------------------------------------------------------- window

  /** Bit `i` of the stream; past its end the decoder reads zeros. */
  function BitAt(bits: seq<bit>, i: nat): bit {
    if i < |bits| then bits[i] else 0
  }

  /** The first `n` bits read as a number, most significant first. */
  function Window(bits: seq<bit>, n: nat): nat
    decreases n, bits
  {
    if n == 0 then 0 else 2 * Window(bits, n - 1) + BitAt(bits, n - 1)
  }

  lemma {:induction false} WindowBound(bits: seq<bit>, n: nat)
    ensures Window(bits, n) < Pow2(n)
  {
    if n > 0 {
      WindowBound(bits, n - 1);
    }
  }

  lemma {:induction false} WindowSplit(b: bit, rest: seq<bit>, n: nat)
    ensures Window([b] + rest, n + 1) == b * Pow2(n) + Window(rest, n)
  {
    if n > 0 {
      WindowSplit(b, rest, n - 1);
      assert BitAt([b] + rest, n) == BitAt(rest, n - 1);
      assert b * Pow2(n) == 2 * (b * Pow2(n - 1));
    } else {
      assert Window([b] + rest, 1) == 2 * Window([b] + rest, 0) + BitAt([b] + rest, 0);
    }
  }

  /** Window of a shifted stream: the decoder's shift step. */
  lemma WindowShift(b: bit, rest: seq<bit>)
    ensures Window(rest, 32) == (2 * Window([b] + rest, 32)) % FULL_RANGE + BitAt([b] + rest, 32)
    ensures Window([b] + rest, 32) == b * HALF_RANGE + Window(rest, 32) / 2
  {
    PowersAre32();
    WindowBound(rest, 32);
    WindowBound([b] + rest, 32);
    WindowSplit(b, rest, 31);
    WindowSplit(b, rest, 32);
    assert Window(rest, 32) == 2 * Window(rest, 31) + BitAt(rest, 31);
    assert Window([b] + rest, 33) == 2 * Window([b] + rest, 32) + BitAt([b] + rest, 32);
  }

  lemma UnderflowArithmetic(b: bit, q: nat, x: bit, c: nat, w: nat)
    requires q < QUARTER_RANGE
    requires c == b * HALF_RANGE + (1 - b) * QUARTER_RANGE + q && w == b * HALF_RANGE + 2 * q + x
    ensures w == (c / HALF_RANGE) * HALF_RANGE + (2 * c) % HALF_RANGE + x
    ensures c == QUARTER_RANGE + w / 2
  {
  }

  lemma WindowFirstTwo(s: seq<bit>, t: seq<bit>, rest: seq<bit>, b: bit, c: bit)
    requires s == [b] + t && t == [c] + rest
    ensures Window(s, 32) == b * HALF_RANGE + c * QUARTER_RANGE + Window(rest, 30)
  {
    PowersAre32();
    WindowSplit(b, t, 31);
    WindowSplit(c, rest, 30);
  }

  lemma WindowFirst(s: seq<bit>, rest: seq<bit>, b: bit)
    requires s == [b] + rest
    ensures Window(s, 32) == b * HALF_RANGE + 2 * Window(rest, 30) + BitAt(rest, 30)
  {
    PowersAre32();
    WindowSplit(b, rest, 31);
    assert Window(rest, 31) == 2 * Window(rest, 30) + BitAt(rest, 30);
  }

  lemma WindowSecondDeleted(b: bit, rest: seq<bit>, bits: seq<bit>, ins: seq<bit>)
    requires bits == [b] + rest && ins == [b] + ([1 - b] + rest)
    ensures Window(bits, 32) == (Window(ins, 32) / HALF_RANGE) * HALF_RANGE + (2 * Window(ins, 32)) % HALF_RANGE
            + BitAt(rest, 30)
    ensures Window(ins, 32) == QUARTER_RANGE + Window(bits, 32) / 2
  {
    WindowBound(rest, 30);
    PowersAre32();
    WindowFirst(bits, rest, b);
    WindowFirstTwo(ins, [1 - b] + rest, rest, b, 1 - b);
    hide Window, Pow2, BitAt;
    UnderflowArithmetic(b, Window(rest, 30), BitAt(rest, 30), Window(ins, 32), Window(bits, 32));
  }

  /** Window of a stream whose second, inverted bit was deleted: the decoder's underflow step. */
  lemma WindowUnderflow(bits: seq<bit>, ins: seq<bit>)
    requires |bits| >= 1 && ins == Insert(bits, 1)
    ensures Window(bits, 32) == (Window(ins, 32) / HALF_RANGE) * HALF_RANGE + (2 * Window(ins, 32)) % HALF_RANGE
            + BitAt(ins, 32)
    ensures Window(ins, 32) == QUARTER_RANGE + Window(bits, 32) / 2
  {
    hide Window;
    assert ins == [bits[0]] + ([1 - bits[0]] + bits[1..]);
    WindowSecondDeleted(bits[0], bits[1..], bits, ins);
  }

  /** The window of the stream always lies in the interval it was emitted from. */
  lemma {:induction false} WindowInInterval(iv: Interval, es: seq<Event>)
    requires iv.Valid()
    ensures iv.low <= Window(Emit(iv, es), 32) <= iv.high
    decreases |es|, FULL_RANGE - (iv.high - iv.low)
  {
    StepValid(iv);
    if iv.Shiftable() {
      WindowInInterval(iv.Shift(), es);
      WindowShift(iv.TopBit(), Emit(iv.Shift(), es));
      ShiftDoubles(iv);
    } else if iv.Underflowable() {
      WindowInInterval(iv.Underflow(), es);
      WindowUnderflow(Emit(iv.Underflow(), es), Emit(iv, es));
    } else if es == [] {
      FinalWindow(iv);
    } else {
      ShrinkValid(iv, es[0]);
      NormalizedWide(iv);
      ShrinkInside(iv, es[0].freqs, es[0].symbol);
      WindowInInterval(Shrink(iv, es[0].freqs, es[0].symbol), es[1..]);
    }
  }

  lemma {:induction false} ZeroWindow(n: nat)
    ensures Window([], n) == 0
  {
    if n > 0 {
      ZeroWindow(n - 1);
    }
  }

  lemma FinalWindow(iv: Interval)
    ensures Window(FinalBits(iv), 32) == if iv.low < QUARTER_RANGE then QUARTER_RANGE else HALF_RANGE
  {
    var b := FinalBits(iv);
    assert b == [b[0]] + [b[1]] && [b[1]] == [b[1]] + [];
    PowersAre32();
    WindowSplit(b[0], [b[1]], 31);
    WindowSplit(b[1], [], 30);
    ZeroWindow(30);
  }

  // ---------------------------------------------------------------- cost of renormalization

  /** The interval after all the shift and underflow steps that follow a symbol. */
  function Renormalized(iv: Interval): (r: Interval)
    requires iv.Valid()
    ensures r.Normalized()
    decreases FULL_RANGE - (iv.high - iv.low)
  {
    StepValid(iv);
    if iv.Shiftable() then Renormalized(iv.Shift())
    else if iv.Underflowable() then Renormalized(iv.Underflow())
    else iv
  }

  function RenormalizationSteps(iv: Interval): nat
    requires iv.Valid()
    decreases FULL_RANGE - (iv.high - iv.low)
  {
    StepValid(iv);
    if iv.Shiftable() then 1 + RenormalizationSteps(iv.Shift())
    else if iv.Underflowable() then 1 + RenormalizationSteps(iv.Underflow())
    else 0
  }

  lemma {:induction false} StepsDouble(iv: Interval)
    requires iv.Valid()
    ensures Renormalized(iv).Width() == Pow2(RenormalizationSteps(iv)) * iv.Width()
    decreases FULL_RANGE - (iv.high - iv.low)
  {
    StepValid(iv);
    if iv.Shiftable() {
      ShiftDoubles(iv);
      StepsDouble(iv.Shift());
      DoubleThenScale(RenormalizationSteps(iv.Shift()), iv.Width());
    } else if iv.Underflowable() {
      UnderflowDoubles(iv);
      StepsDouble(iv.Underflow());
      DoubleThenScale(RenormalizationSteps(iv.Underflow()), iv.Width());
    }
  }

  lemma DoubleThenScale(n: nat, width: nat)
    ensures Pow2(n) * (2 * width) == Pow2(n + 1) * width
  {
  }

  /** Both loops together take at most 32 steps for a symbol, and leave an interval astride the middle
      that is wide enough for any table. */
  lemma FewSteps(iv: Interval)
    requires iv.Valid()
    ensures RenormalizationSteps(iv) <= 32
    ensures var r := Renormalized(iv); 0 <= r.low < HALF_RANGE <= r.high < FULL_RANGE && r.Width() >= MIN_RANGE
  {
    var n := RenormalizationSteps(iv);
    StepsDouble(iv);
    NormalizedWide(Renormalized(iv));
    PowersAre32();
    if n > 32 {
      Pow2Grows(33, n);
      assert Pow2(33) == 2 * Pow2(32);
      ScaleUp(Pow2(n), iv.Width());
    }
  }

  lemma ScaleUp(a: nat, width: nat)
    requires width >= 1
    ensures a * width >= a
  {
  }
}
