/** The arithmetic decoder (decoder.c) and the round trip with the encoder. */
module ArithmeticDecoder {
  import opened Arithmetic
  import opened Bitwise
  import opened Common
  import opened Frequencies
  import opened Intervals
  import opened CodeStream

  const STATE_BITS: nat := 32

  datatype DecoderState = DecoderState(interval: Interval, code: nat, input: seq<bit>,
                                       received: nat, trailing: nat, underflowed: bool)
  {
    /** Nothing is read yet, or the code lies in the interval. Holds for every input. */
    predicate Valid() {
      if received == 0 then code == 0 && interval == FULL_INTERVAL
      else received == STATE_BITS && interval.Valid() && interval.low <= code <= interval.high
    }
  }

  function Initial(input: seq<bit>): DecoderState {
    DecoderState(FULL_INTERVAL, 0, input, 0, 0, false)
  }

  /** A table the decoder can read with. */
  predicate Decodable(f: Freqs) {
    0 < Total(f) <= MAX_TOTAL
  }

  lemma AdaptiveDecodable(t: Table)
    ensures Decodable(t)
  {
  }

  /** Next bit of the input; past its end zeros, and an underflow error after too many of them. */
  function ReadBit(d: DecoderState): (r: (bit, DecoderState))
    ensures r.1 == d.(input := r.1.input, trailing := r.1.trailing, underflowed := r.1.underflowed)
  {
    if d.input != [] then (d.input[0], d.(input := d.input[1..]))
    else (0, d.(trailing := d.trailing + 1, underflowed := d.underflowed || d.trailing > STATE_BITS))
  }

  function Load(d: DecoderState): (r: DecoderState)
    requires d.received <= STATE_BITS && d.code < Pow2(d.received)
    ensures r.received == STATE_BITS && r.code < FULL_RANGE && r.interval == d.interval
    decreases STATE_BITS - d.received
  {
    PowersAre32();
    if d.received == STATE_BITS then d
    else
      var (b, n) := ReadBit(d);
      Load(n.(code := 2 * d.code + b, received := d.received + 1))
  }

  function ShiftIn(d: DecoderState): DecoderState {
    var (b, n) := ReadBit(d);
    n.(code := (2 * d.code) % FULL_RANGE + b, interval := d.interval.Shift())
  }

  function UnderflowIn(d: DecoderState): DecoderState
    requires d.interval.low < HALF_RANGE <= d.interval.high && d.interval.Underflowable()
  {
    var (b, n) := ReadBit(d);
    n.(code := (d.code / HALF_RANGE) * HALF_RANGE + (2 * d.code) % HALF_RANGE + b, interval := d.interval.Underflow())
  }

  /** The code after a shift, as the masks on words compute it. */
  lemma ShiftedCodeIsMasked(code: nat, b: bit)
    requires code < FULL_RANGE
    ensures Or(And(2 * code, FULL_RANGE - 1), b) == (2 * code) % FULL_RANGE + b
  {
    hide And, Or, Pow2;
    PowersAre32();
    AndMask(2 * code, 32);
    Halves(0, code);
    RemainderSplit(2 * code, 31);
    JoinLowest(code % HALF_RANGE, b);
  }

  /** The code after an underflow step. */
  lemma UnderflowedCodeIsMasked(code: nat, b: bit)
    requires code < FULL_RANGE
    ensures Or(Or(And(code, HALF_RANGE), And(2 * code, HALF_RANGE - 1)), b) ==
            (code / HALF_RANGE) * HALF_RANGE + (2 * code) % HALF_RANGE + b
  {
    hide And, Or, Pow2, BitOf;
    PowersAre32();
    AndMask(2 * code, 31);
    AndOneBit(code, 31);
    TopBitIsHalf(code, 31);
    OrAbove((2 * code) % HALF_RANGE, BitOf(code, 31), 31);
    Halves(0, code);
    RemainderSplit(2 * code, 30);
    JoinLowest(BitOf(code, 31) * QUARTER_RANGE + code % QUARTER_RANGE, b);
  }

  predicate Loaded(d: DecoderState) {
    d.received == STATE_BITS && d.interval.Valid() && d.interval.low <= d.code <= d.interval.high
  }

  lemma ShiftStaysLoaded(d: DecoderState)
    requires Loaded(d) && d.interval.Shiftable()
    ensures Loaded(ShiftIn(d))
  {
    hide ReadBit;
    StepValid(d.interval);
    ShiftDoubles(d.interval);
    DoubledRemainder(d.code, d.interval.TopBit(), FULL_RANGE);
  }

  lemma UnderflowStaysLoaded(d: DecoderState)
    requires Loaded(d) && !d.interval.Shiftable() && d.interval.Underflowable()
    ensures d.interval.low < HALF_RANGE <= d.interval.high && Loaded(UnderflowIn(d))
  {
    hide ReadBit;
    StepValid(d.interval);
    var top := if d.code >= HALF_RANGE then 1 else 0;
    assert d.code / HALF_RANGE == top;
    DoubledRemainder(d.code, if d.code >= HALF_RANGE then 2 else 1, HALF_RANGE);
  }

  lemma DoubledRemainder(code: nat, turns: nat, range: nat)
    requires turns <= 2 && turns * range <= 2 * code < (turns + 1) * range
    ensures (2 * code) % range == 2 * code - turns * range
  {
    DivModUnique(turns, 2 * code - turns * range, range);
  }

  lemma StepsStayLoaded(d: DecoderState)
    requires Loaded(d)
    ensures d.interval.Shiftable() ==> Loaded(ShiftIn(d))
    ensures !d.interval.Shiftable() && d.interval.Underflowable() ==>
              d.interval.low < HALF_RANGE <= d.interval.high && Loaded(UnderflowIn(d))
  {
    hide ShiftIn, UnderflowIn;
    if d.interval.Shiftable() {
      ShiftStaysLoaded(d);
    } else if d.interval.Underflowable() {
      UnderflowStaysLoaded(d);
    }
  }

  function ShiftAll(d: DecoderState): (r: DecoderState)
    requires Loaded(d)
    ensures Loaded(r) && !r.interval.Shiftable()
    decreases FULL_RANGE - (d.interval.high - d.interval.low)
  {
    StepValid(d.interval);
    StepsStayLoaded(d);
    if d.interval.Shiftable() then ShiftAll(ShiftIn(d)) else d
  }

  function UnderflowAll(d: DecoderState): (r: DecoderState)
    requires Loaded(d) && !d.interval.Shiftable()
    ensures Loaded(r) && r.interval.Normalized()
    decreases FULL_RANGE - (d.interval.high - d.interval.low)
  {
    StepValid(d.interval);
    StepsStayLoaded(d);
    if d.interval.Underflowable() then
      UnderflowDoubles(d.interval);
      UnderflowAll(UnderflowIn(d))
    else d
  }

  lemma ProduceStays(d: DecoderState, f: Freqs)
    requires Loaded(d) && Decodable(f) && Total(f) <= d.interval.Width()
    ensures Estimate(d.interval, f, d.code) < Total(f)
    ensures var s := Find(f, Estimate(d.interval, f, d.code));
            Encodable(f, s) && Loaded(d.(interval := Shrink(d.interval, f, s)))
  {
    EstimateFindsSymbol(d.interval, f, 0, d.code);
    var s := Find(f, Estimate(d.interval, f, d.code));
    FindUnique(f, Estimate(d.interval, f, d.code), s);
    EstimateFindsSymbol(d.interval, f, s, d.code);
    ShrinkInside(d.interval, f, s);
  }

  function Produce(d: DecoderState, f: Freqs): (r: (nat, DecoderState))
    requires Loaded(d) && Decodable(f) && Total(f) <= d.interval.Width()
    ensures Encodable(f, r.0) && Loaded(r.1)
  {
    ProduceStays(d, f);
    var s := Find(f, Estimate(d.interval, f, d.code));
    (s, d.(interval := Shrink(d.interval, f, s)))
  }

  /** The state from which the next symbol is produced: 32 bits loaded, or the last interval renormalized. */
  function Prepare(d: DecoderState): (r: DecoderState)
    requires d.Valid()
    ensures Loaded(r) && r.interval.Width() >= MAX_TOTAL
  {
    if d.received < STATE_BITS then Load(d)
    else
      var r := UnderflowAll(ShiftAll(d));
      NormalizedWide(r.interval);
      r
  }

  function Read(d: DecoderState, f: Freqs): (r: (nat, DecoderState))
    requires d.Valid() && Decodable(f)
    ensures Encodable(f, r.0) && r.1.Valid()
  {
    Produce(Prepare(d), f)
  }

  // ---------------------------------------------------------------- in step with the encoder

  /** The decoder's unread bits are those of `stream`, from index `from` on, and zero padding;
      the zeros it made up itself lie past the end of the stream. */
  ghost predicate Tail(d: DecoderState, stream: seq<bit>, from: nat) {
    && !d.underflowed
    && |stream| + d.trailing <= from + |d.input|
    && (d.trailing > 0 ==> d.input == [])
    && forall i | 0 <= i < |d.input| :: d.input[i] == BitAt(stream, from + i)
  }

  /** The decoder holds the stream that the encoder emits for the events `es` from the decoder's own interval. */
  ghost predicate Ready(d: DecoderState, es: seq<Event>) {
    if d.received == 0 then
      && d == Initial(d.input)
      && var stream := Emit(FULL_INTERVAL, es);
         |stream| <= |d.input| && forall i | 0 <= i < |d.input| :: d.input[i] == BitAt(stream, i)
    else
      && Loaded(d)
      && d.code == Window(Emit(d.interval, es), STATE_BITS)
      && Tail(d, Emit(d.interval, es), STATE_BITS)
  }

  lemma ReadyValid(d: DecoderState, es: seq<Event>)
    requires Ready(d, es)
    ensures d.Valid()
  {
  }

  /** One of the 32 bits held and at least two stream bits: few zeros are ever made up. */
  lemma FewTrailingZeros(d: DecoderState, es: seq<Event>)
    requires Ready(d, es)
    ensures d.Valid() && d.trailing <= 30 && !d.underflowed
  {
  }

  lemma ReadBitTail(d: DecoderState, stream: seq<bit>, from: nat, next: seq<bit>)
    requires Tail(d, stream, from) && from <= STATE_BITS && |stream| == |next| + 1 && |next| >= 2
    requires forall i | from <= i :: BitAt(stream, i + 1) == BitAt(next, i)
    ensures ReadBit(d).0 == BitAt(stream, from)
    ensures Tail(ReadBit(d).1, next, from)
  {
    var n := ReadBit(d).1;
    forall i | 0 <= i < |n.input| ensures n.input[i] == BitAt(next, from + i) {
      assert n.input[i] == d.input[i + 1];
      assert BitAt(stream, (from + i) + 1) == BitAt(next, from + i);
    }
  }

  lemma {:induction false} ShiftAllReady(d: DecoderState, es: seq<Event>)
    requires d.received == STATE_BITS && Ready(d, es)
    ensures Ready(ShiftAll(d), es)
    decreases FULL_RANGE - (d.interval.high - d.interval.low)
  {
    StepValid(d.interval);
    StepsStayLoaded(d);
    if d.interval.Shiftable() {
      var stream, next := Emit(d.interval, es), Emit(d.interval.Shift(), es);
      ReadBitTail(d, stream, STATE_BITS, next);
      WindowShift(d.interval.TopBit(), next);
      ShiftAllReady(ShiftIn(d), es);
    }
  }

  lemma {:induction false} UnderflowAllReady(d: DecoderState, es: seq<Event>)
    requires d.received == STATE_BITS && Ready(d, es) && !d.interval.Shiftable()
    ensures Ready(UnderflowAll(d), es)
    decreases FULL_RANGE - (d.interval.high - d.interval.low)
  {
    StepValid(d.interval);
    StepsStayLoaded(d);
    if d.interval.Underflowable() {
      UnderflowDoubles(d.interval);
      var stream, next := Emit(d.interval, es), Emit(d.interval.Underflow(), es);
      ReadBitTail(d, stream, STATE_BITS, next);
      WindowUnderflow(next, stream);
      UnderflowAllReady(UnderflowIn(d), es);
    }
  }

  lemma {:induction false} LoadReady(d: DecoderState, es: seq<Event>)
    requires d.received <= STATE_BITS && d.code < Pow2(d.received) && d.interval == FULL_INTERVAL
    requires d.code == Window(Emit(FULL_INTERVAL, es), d.received) && Tail(d, Emit(FULL_INTERVAL, es), d.received)
    ensures Ready(Load(d), es)
    decreases STATE_BITS - d.received
  {
    if d.received == STATE_BITS {
      PowersAre32();
    } else {
      var (b, n) := ReadBit(d);
      LoadReady(n.(code := 2 * d.code + b, received := d.received + 1), es);
    }
  }

  /** One symbol: what the encoder wrote next is what the decoder reads, and both stay in step. */
  lemma ReadBack(d: DecoderState, f: Freqs, s: nat, es: seq<Event>)
    requires Encodable(f, s) && Ready(d, [Event(f, s)] + es)
    ensures d.Valid() && Decodable(f)
    ensures Read(d, f).0 == s && Ready(Read(d, f).1, es)
  {
    var all := [Event(f, s)] + es;
    assert all[0] == Event(f, s) && all[1..] == es;
    LowMonotone(f, s + 1, |f|);
    if d.received == 0 {
      LoadReady(d, all);
    } else {
      ShiftAllReady(d, all);
      UnderflowAllReady(ShiftAll(d), all);
    }
    var p := Prepare(d);
    assert Ready(p, all) && p.interval.Normalized() by {
      if d.received == 0 {
        assert p.interval == FULL_INTERVAL;
      }
    }
    ShrinkValid(p.interval, Event(f, s));
    var shrunk := Shrink(p.interval, f, s);
    WindowInInterval(shrunk, es);
    EstimateFindsSymbol(p.interval, f, s, p.code);
    FindUnique(f, Estimate(p.interval, f, p.code), s);
  }

  // ---------------------------------------------------------------- whole streams

  datatype AllRead = AllRead(symbols: seq<nat>, decoder: DecoderState)

  /** Read `n` symbols, each with a table chosen from the symbols before it. */
  function ReadAll(d: DecoderState, choose: seq<nat> -> Freqs, history: seq<nat>, n: nat): AllRead
    requires d.Valid() && forall h :: Decodable(choose(h))
    decreases n
  {
    if n == 0 then AllRead([], d)
    else
      var (s, d') := Read(d, choose(history));
      var rest := ReadAll(d', choose, history + [s], n - 1);
      AllRead([s] + rest.symbols, rest.decoder)
  }

  /** The events of coding `symbols` when each table is chosen from the symbols before it. */
  function Events(choose: seq<nat> -> Freqs, history: seq<nat>, symbols: seq<nat>): (es: seq<Event>)
    requires AllEncodable(choose, history, symbols)
    ensures |es| == |symbols|
    decreases |symbols|
  {
    if symbols == [] then []
    else
      assert Encodable(choose(history), symbols[0]);
      [Event(choose(history), symbols[0])] + Events(choose, history + [symbols[0]], symbols[1..])
  }

  predicate AllEncodable(choose: seq<nat> -> Freqs, history: seq<nat>, symbols: seq<nat>)
    decreases |symbols|
  {
    symbols == [] ||
    (Encodable(choose(history), symbols[0]) && AllEncodable(choose, history + [symbols[0]], symbols[1..]))
  }

  lemma {:induction false} ReadAllReady(d: DecoderState, choose: seq<nat> -> Freqs, history: seq<nat>,
      symbols: seq<nat>)
    requires forall h :: Decodable(choose(h))
    requires AllEncodable(choose, history, symbols) && d.Valid() && Ready(d, Events(choose, history, symbols))
    ensures var r := ReadAll(d, choose, history, |symbols|); r.symbols == symbols && Ready(r.decoder, [])
    decreases |symbols|
  {
    hide Read, Ready;
    if symbols != [] {
      var s := symbols[0];
      ReadBack(d, choose(history), s, Events(choose, history + [s], symbols[1..]));
      ReadAllReady(Read(d, choose(history)).1, choose, history + [s], symbols[1..]);
    }
  }

  /** A fresh decoder over an emitted stream, followed by any number of zero padding bits, is in step. */
  lemma InitialReady(es: seq<Event>, padding: nat)
    ensures Ready(Initial(Emit(FULL_INTERVAL, es) + Repeat(0, padding)), es)
  {
  }

  /** The round trip of the coder, for every adaptive choice of tables that both sides share; the decoder
      makes up at most 30 zeros past the end of the stream, so it never reports an underflow. */
  lemma RoundTrip(choose: seq<nat> -> Freqs, symbols: seq<nat>, padding: nat)
    requires forall h :: Decodable(choose(h))
    requires AllEncodable(choose, [], symbols)
    ensures var input := Emit(FULL_INTERVAL, Events(choose, [], symbols)) + Repeat(0, padding);
            var r := ReadAll(Initial(input), choose, [], |symbols|);
            r.symbols == symbols && !r.decoder.underflowed && r.decoder.trailing <= 30
  {
    hide Ready;
    var input := Emit(FULL_INTERVAL, Events(choose, [], symbols)) + Repeat(0, padding);
    InitialReady(Events(choose, [], symbols), padding);
    ReadAllReady(Initial(input), choose, [], symbols);
    FewTrailingZeros(ReadAll(Initial(input), choose, [], |symbols|).decoder, []);
  }

  // ---------------------------------------------------------------- the object

  class Decoder {
    var low: int
    var high: int
    var code: nat
    // what the reader still holds
    var input: seq<bit>
    var baseBitsReceived: nat
    var trailingZeroesEmitted: nat
    var underflowError: bool

    ghost function State(): DecoderState
      reads this
    {
      DecoderState(Interval(low, high), code, input, baseBitsReceived, trailingZeroesEmitted, underflowError)
    }

    constructor (bits: seq<bit>)
      ensures State() == Initial(bits)
    {
      low, high, code, input := 0, FULL_RANGE - 1, 0, bits;
      baseBitsReceived, trailingZeroesEmitted, underflowError := 0, 0, false;
    }

    method ReadNextBit() returns (b: bit)
      modifies this
      ensures (b, State()) == ReadBit(old(State()))
    {
      if |input| > 0 {
        b, input := input[0], input[1..];
      } else {
        if trailingZeroesEmitted > STATE_BITS {
          underflowError := true;
        }
        trailingZeroesEmitted := trailingZeroesEmitted + 1;
        b := 0;
      }
    }

    method ProduceSymbol(f: Freqs) returns (s: nat)
      requires Loaded(State()) && Decodable(f) && Total(f) <= Interval(low, high).Width()
      modifies this
      ensures (s, State()) == Produce(old(State()), f)
    {
      ProduceStays(State(), f);
      var range := high - low + 1;
      var offset := code - low;
      var value := Quotient(Numerator(offset, Total(f)), range);
      // binary search for the highest symbol whose low is at most value
      var start, end := 0, |f|;
      while end - start > 1
        invariant 0 <= start < end <= |f|
        invariant Low(f, start) <= value < Low(f, end)
      {
        var middle := (start + end) / 2;
        if Low(f, middle) > value {
          end := middle;
        } else {
          start := middle;
        }
      }
      s := start;
      FindUnique(f, value, s);
      var shrunk := Shrink(Interval(low, high), f, s);
      low, high := shrunk.low, shrunk.high;
    }

    method LoadCode()
      requires baseBitsReceived <= STATE_BITS && code < Pow2(baseBitsReceived)
      modifies this
      ensures State() == Load(old(State()))
    {
      while baseBitsReceived < STATE_BITS
        invariant baseBitsReceived <= STATE_BITS && code < Pow2(baseBitsReceived)
        invariant Load(State()) == Load(old(State()))
      {
        var b := ReadNextBit();
        code := 2 * code + b;
        baseBitsReceived := baseBitsReceived + 1;
      }
    }

    method ShiftWhilePossible()
      requires Loaded(State())
      modifies this
      ensures State() == ShiftAll(old(State()))
    {
      hide Interval.Shift, Interval.Shiftable, And, Or;
      while Interval(low, high).Shiftable()
        invariant Loaded(State()) && ShiftAll(State()) == ShiftAll(old(State()))
        decreases FULL_RANGE - (high - low)
      {
        StepValid(Interval(low, high));
        StepsStayLoaded(State());
        var b := ReadNextBit();
        ShiftedCodeIsMasked(code, b);
        code := Or(And(2 * code, FULL_RANGE - 1), b);
        var next := Interval(low, high).Shift();
        low, high := next.low, next.high;
      }
    }

    method UnderflowWhilePossible()
      requires Loaded(State()) && !Interval(low, high).Shiftable()
      modifies this
      ensures State() == UnderflowAll(old(State()))
    {
      hide Interval.Underflow, Interval.Underflowable, And, Or;
      while Interval(low, high).Underflowable()
        invariant Loaded(State()) && !Interval(low, high).Shiftable()
        invariant UnderflowAll(State()) == UnderflowAll(old(State()))
        decreases FULL_RANGE - (high - low)
      {
        UnderflowDoubles(Interval(low, high));
        StepsStayLoaded(State());
        var b := ReadNextBit();
        UnderflowedCodeIsMasked(code, b);
        code := Or(Or(And(code, HALF_RANGE), And(2 * code, HALF_RANGE - 1)), b);
        var next := Interval(low, high).Underflow();
        low, high := next.low, next.high;
      }
    }

    method ReadSymbol(f: Freqs) returns (s: nat)
      requires State().Valid() && Decodable(f)
      modifies this
      ensures (s, State()) == Read(old(State()), f)
    {
      if baseBitsReceived < STATE_BITS {
        LoadCode();
      } else {
        ShiftWhilePossible();
        UnderflowWhilePossible();
        NormalizedWide(Interval(low, high));
      }
      s := ProduceSymbol(f);
    }
  }
}
