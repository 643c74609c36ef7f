/** The arithmetic encoder (encoder.c). */
module ArithmeticEncoder {
  import opened Common
  import opened Frequencies
  import opened Intervals
  import opened CodeStream

  datatype EncoderState = EncoderState(interval: Interval, pending: nat, output: seq<bit>)

  const INITIAL := EncoderState(FULL_INTERVAL, 0, [])

  /** A bit of the stream followed by the saved underflow bits, which are its opposites. */
  function BitWithPending(b: bit, pending: nat): seq<bit> {
    [b] + Repeat(1 - b, pending)
  }

  function ShiftOut(e: EncoderState): EncoderState {
    EncoderState(e.interval.Shift(), 0, e.output + BitWithPending(e.interval.TopBit(), e.pending))
  }

  function ShiftAll(e: EncoderState): (r: EncoderState)
    requires e.interval.Valid()
    ensures r.interval.Valid() && !r.interval.Shiftable()
    decreases FULL_RANGE - (e.interval.high - e.interval.low)
  {
    StepValid(e.interval);
    if e.interval.Shiftable() then ShiftAll(ShiftOut(e)) else e
  }

  function UnderflowAll(e: EncoderState): (r: EncoderState)
    requires e.interval.Valid() && !e.interval.Shiftable()
    ensures r.interval.Normalized()
    decreases FULL_RANGE - (e.interval.high - e.interval.low)
  {
    StepValid(e.interval);
    if e.interval.Underflowable() then
      UnderflowDoubles(e.interval);
      UnderflowAll(EncoderState(e.interval.Underflow(), e.pending + 1, e.output))
    else e
  }

  function WriteEvent(e: EncoderState, ev: Event): (r: EncoderState)
    requires e.interval.Normalized()
    ensures r.interval.Normalized()
  {
    ShrinkValid(e.interval, ev);
    UnderflowAll(ShiftAll(e.(interval := Shrink(e.interval, ev.freqs, ev.symbol))))
  }

  function Run(sent: seq<Event>): (r: EncoderState)
    ensures r.interval.Normalized()
  {
    if sent == [] then INITIAL
    else WriteEvent(Run(sent[..|sent| - 1]), sent[|sent| - 1])
  }

  lemma RunAppend(sent: seq<Event>, ev: Event)
    ensures Run(sent + [ev]) == WriteEvent(Run(sent), ev)
  {
    assert (sent + [ev])[..|sent|] == sent;
  }

  function Finish(e: EncoderState): seq<bit> {
    e.output + BitWithPending(if e.interval.low < QUARTER_RANGE then 0 else 1, e.pending + 1)
  }

  // ---------------------------------------------------------------- what the run emits

  /** The whole stream, if the events `es` follow state `e`. */
  function Completed(e: EncoderState, es: seq<Event>): seq<bit>
    requires e.interval.Valid()
  {
    e.output + Insert(Emit(e.interval, es), e.pending)
  }

  lemma ShiftOutBits(output: seq<bit>, b: bit, pending: nat, rest: seq<bit>)
    requires |rest| > 0
    ensures output + Insert([b] + rest, pending) == output + BitWithPending(b, pending) + Insert(rest, 0)
  {
    assert Insert(rest, 0) == rest;
    assert Insert([b] + rest, pending) == BitWithPending(b, pending) + rest;
  }

  lemma {:induction false} ShiftAllKeeps(e: EncoderState, es: seq<Event>)
    requires e.interval.Valid()
    ensures Completed(ShiftAll(e), es) == Completed(e, es)
    decreases FULL_RANGE - (e.interval.high - e.interval.low)
  {
    StepValid(e.interval);
    if e.interval.Shiftable() {
      ShiftAllKeeps(ShiftOut(e), es);
      ShiftOutBits(e.output, e.interval.TopBit(), e.pending, Emit(e.interval.Shift(), es));
    }
  }

  lemma {:induction false} UnderflowAllKeeps(e: EncoderState, es: seq<Event>)
    requires e.interval.Valid() && !e.interval.Shiftable()
    ensures Completed(UnderflowAll(e), es) == Completed(e, es)
    decreases FULL_RANGE - (e.interval.high - e.interval.low)
  {
    StepValid(e.interval);
    if e.interval.Underflowable() {
      UnderflowDoubles(e.interval);
      UnderflowAllKeeps(EncoderState(e.interval.Underflow(), e.pending + 1, e.output), es);
      InsertTwice(Emit(e.interval.Underflow(), es), 1, e.pending);
    }
  }

  lemma WriteKeeps(e: EncoderState, ev: Event, es: seq<Event>)
    requires e.interval.Normalized()
    ensures Completed(WriteEvent(e, ev), es) == Completed(e, [ev] + es)
  {
    ShrinkValid(e.interval, ev);
    var shrunk := e.(interval := Shrink(e.interval, ev.freqs, ev.symbol));
    ShiftAllKeeps(shrunk, es);
    UnderflowAllKeeps(ShiftAll(shrunk), es);
    assert ([ev] + es)[1..] == es;
  }

  /** However the events are split between those written and those to come, the stream is the same. */
  lemma {:induction false} RunEmits(sent: seq<Event>, es: seq<Event>)
    ensures Completed(Run(sent), es) == Emit(FULL_INTERVAL, sent + es)
    decreases |sent|
  {
    if sent == [] {
      assert sent + es == es;
      assert Completed(INITIAL, es) == Emit(FULL_INTERVAL, es);
    } else {
      var n := |sent| - 1;
      RunEmits(sent[..n], [sent[n]] + es);
      WriteKeeps(Run(sent[..n]), sent[n], es);
      assert sent[..n] + ([sent[n]] + es) == sent + es;
    }
  }

  lemma FinishEmits(sent: seq<Event>)
    ensures Finish(Run(sent)) == Emit(FULL_INTERVAL, sent)
  {
    RunEmits(sent, []);
    assert sent + [] == sent;
    var e := Run(sent);
    var b: bit := if e.interval.low < QUARTER_RANGE then 0 else 1;
    assert Insert(FinalBits(e.interval), e.pending) == BitWithPending(b, e.pending + 1);
  }

  /** The finaliser writes two bits and those pending, and nothing else. */
  lemma FinishSize(e: EncoderState)
    ensures |Finish(e)| == Size(e) + 2 && Finish(e)[..|e.output|] == e.output
  {
  }

  // ---------------------------------------------------------------- width and steps

  lemma {:induction false} UnderflowAllInterval(e: EncoderState)
    requires e.interval.Valid() && !e.interval.Shiftable()
    ensures UnderflowAll(e).interval == Renormalized(e.interval)
    ensures UnderflowAll(e).pending == e.pending + RenormalizationSteps(e.interval)
    decreases FULL_RANGE - (e.interval.high - e.interval.low)
  {
    StepValid(e.interval);
    if e.interval.Underflowable() {
      UnderflowDoubles(e.interval);
      UnderflowAllInterval(EncoderState(e.interval.Underflow(), e.pending + 1, e.output));
    }
  }

  lemma {:induction false} ShiftAllInterval(e: EncoderState)
    requires e.interval.Valid()
    ensures Renormalized(ShiftAll(e).interval) == Renormalized(e.interval)
    decreases FULL_RANGE - (e.interval.high - e.interval.low)
  {
    StepValid(e.interval);
    if e.interval.Shiftable() {
      ShiftAllInterval(ShiftOut(e));
    }
  }

  function Size(e: EncoderState): nat {
    |e.output| + e.pending
  }

  /** Each iteration of the loops writes one bit or counts one as pending. */
  lemma {:induction false} ShiftAllSize(e: EncoderState)
    requires e.interval.Valid()
    ensures Size(ShiftAll(e)) + RenormalizationSteps(ShiftAll(e).interval) == Size(e) + RenormalizationSteps(e.interval)
    decreases FULL_RANGE - (e.interval.high - e.interval.low)
  {
    StepValid(e.interval);
    if e.interval.Shiftable() {
      ShiftAllSize(ShiftOut(e));
    }
  }

  lemma {:induction false} UnderflowAllSize(e: EncoderState)
    requires e.interval.Valid() && !e.interval.Shiftable()
    ensures Size(UnderflowAll(e)) == Size(e) + RenormalizationSteps(e.interval)
    decreases FULL_RANGE - (e.interval.high - e.interval.low)
  {
    StepValid(e.interval);
    if e.interval.Underflowable() {
      UnderflowDoubles(e.interval);
      UnderflowAllSize(EncoderState(e.interval.Underflow(), e.pending + 1, e.output));
    }
  }

  /** A write renormalizes the shrunk interval in at most 32 steps, each of which writes a bit or makes one
      pending, and leaves the interval wide. */
  lemma WriteRenormalizes(e: EncoderState, ev: Event)
    requires e.interval.Normalized()
    ensures Total(ev.freqs) > 0
    ensures var shrunk, after := Shrink(e.interval, ev.freqs, ev.symbol), WriteEvent(e, ev).interval;
            && shrunk.Valid() && after == Renormalized(shrunk) && RenormalizationSteps(shrunk) <= 32
            && 0 <= after.low < HALF_RANGE <= after.high < FULL_RANGE && after.Width() >= MIN_RANGE
            && Size(WriteEvent(e, ev)) == Size(e) + RenormalizationSteps(shrunk) <= Size(e) + 32
  {
    ShrinkValid(e.interval, ev);
    var shrunk := e.(interval := Shrink(e.interval, ev.freqs, ev.symbol));
    ShiftAllInterval(shrunk);
    UnderflowAllInterval(ShiftAll(shrunk));
    ShiftAllSize(shrunk);
    UnderflowAllSize(ShiftAll(shrunk));
    FewSteps(shrunk.interval);
  }

  // ---------------------------------------------------------------- the assert after a shrink

  /** Whether low < high holds after each shrink of a run. */
  predicate Passes(sent: seq<Event>) {
    sent != [] ==>
      var most, ev := sent[..|sent| - 1], sent[|sent| - 1];
      ShrinkValid(Run(most).interval, ev);
      Passes(most) && PassesNext(most, ev.freqs, ev.symbol)
  }

  /** Whether it holds after the shrink for one more symbol. */
  predicate PassesNext(sent: seq<Event>, f: Freqs, s: nat)
    requires s < |f| && Total(f) > 0
  {
    var shrunk := Shrink(Run(sent).interval, f, s);
    shrunk.low < shrunk.high
  }

  predicate CanFollow(f: Freqs, s: nat, total: nat) {
    Total(f) == total > 0 && s < |f| && f[s] > 0
  }

  /** The assert never fails for tables of this total, whatever was sent before. */
  ghost predicate NeverFails(total: nat) {
    forall sent: seq<Event>, f: Freqs, s: nat | CanFollow(f, s, total) :: PassesNext(sent, f, s)
  }

  /** The same for runs that no assert has ended before. */
  ghost predicate NeverFailsFirst(total: nat) {
    forall sent: seq<Event>, f: Freqs, s: nat | Passes(sent) && CanFollow(f, s, total) :: PassesNext(sent, f, s)
  }

  const TO_NARROWEST: Freqs := [0x1000_0000, 0x1000_0001, 0x2000_0000]

  /** One write leads to the narrowest interval between coding steps. */
  lemma NarrowestReached()
    ensures Encodable(TO_NARROWEST, 1)
    ensures var sent := [Event(TO_NARROWEST, 1)]; Passes(sent) && Run(sent).interval == NARROWEST
  {
    TotalOfThree(0x1000_0000, 0x1000_0001, 0x2000_0000);
    var ev: Event := Event(TO_NARROWEST, 1);
    assert [ev][..0] == [] && Run([]) == INITIAL && Passes([]);
    assert Scale(FULL_RANGE, 0x4000_0001, 0x1000_0000) == 0x3FFF_FFFF;
    assert Scale(FULL_RANGE, 0x4000_0001, 0x2000_0001) == 0x8000_0001;
    assert Shrink(FULL_INTERVAL, TO_NARROWEST, 1) == NARROWEST;
  }

  /** For a total within the limit the assert never fails, in any run, if and only if twice the total is at most
      ACOD_MIN_RANGE; otherwise some table and symbol make it fail as the first assert of a run. */
  lemma StrictAssertExactly(total: nat)
    requires 0 < total <= MAX_TOTAL
    ensures NeverFails(total) <==> 2 * total <= MIN_RANGE
    ensures NeverFailsFirst(total) <==> 2 * total <= MIN_RANGE
  {
    if 2 * total <= MIN_RANGE {
      forall sent: seq<Event>, f: Freqs, s: nat | CanFollow(f, s, total) ensures PassesNext(sent, f, s) {
        TwiceIsEnough(Run(sent).interval, f, s, total);
      }
    }
    if NeverFailsFirst(total) {
      NarrowestReached();
      var sent := [Event(TO_NARROWEST, 1)];
      forall f: Freqs, s: nat | StrictCase(NARROWEST, f, s, total)
        ensures Shrink(NARROWEST, f, s).low < Shrink(NARROWEST, f, s).high
      {
        assert CanFollow(f, s, total) && PassesNext(sent, f, s);
      }
      NarrowestNeedsTwice(total);
    }
  }

  /** Two writes, with tables within the limit, of which only the second makes the assert fail. */
  lemma StrictAssertFails()
    ensures Encodable(TO_NARROWEST, 1) && IsAdaptive(TO_NARROWEST)
    ensures var f: Freqs := [1, MAX_TOTAL - 1];
            && IsAdaptive(f) && Encodable(f, 0)
            && Passes([Event(TO_NARROWEST, 1)]) && !PassesNext([Event(TO_NARROWEST, 1)], f, 0)
  {
    NarrowestReached();
    TotalOfThree(0x1000_0000, 0x1000_0001, 0x2000_0000);
    var f: Freqs := [1, MAX_TOTAL - 1];
    assert Low(f, 1) == Low(f, 0) + f[0];
    assert Low(f, 2) == Low(f, 1) + f[1];
    DivAtLeast(1 * MIN_RANGE, 1, MAX_TOTAL);
    DivAtLeast(1 * MIN_RANGE, 2, MAX_TOTAL);
    DivAtLeast(0, 1, MAX_TOTAL);
    assert Shrink(NARROWEST, f, 0).low == Shrink(NARROWEST, f, 0).high;
  }

  // ---------------------------------------------------------------- the object

  class Encoder {
    var low: int
    var high: int
    var underflows: nat
    // what the writer has received
    var output: seq<bit>
    ghost var sent: seq<Event>

    ghost function State(): EncoderState
      reads this
    {
      EncoderState(Interval(low, high), underflows, output)
    }

    ghost predicate Valid()
      reads this
    {
      State() == Run(sent)
    }

    constructor ()
      ensures Valid() && sent == []
    {
      low, high := 0, FULL_RANGE - 1;
      underflows := 0;
      output := [];
      sent := [];
    }

    /** Write one stream bit and all the saved underflow bits. */
    method WriteShiftBit(b: bit)
      modifies this`output, this`underflows
      ensures underflows == 0 && output == old(output) + BitWithPending(b, old(underflows))
    {
      output := output + [b];
      ghost var n := 0;
      while underflows > 0
        invariant n + underflows == old(underflows)
        invariant output == old(output) + BitWithPending(b, n)
      {
        output := output + [1 - b];
        underflows := underflows - 1;
        n := n + 1;
      }
    }

    method ShiftWhilePossible()
      requires Interval(low, high).Valid()
      modifies this`low, this`high, this`underflows, this`output
      ensures State() == ShiftAll(old(State()))
    {
      while Interval(low, high).Shiftable()
        invariant Interval(low, high).Valid() && ShiftAll(State()) == ShiftAll(old(State()))
        decreases FULL_RANGE - (high - low)
      {
        StepValid(Interval(low, high));
        WriteShiftBit(Interval(low, high).TopBit());
        var next := Interval(low, high).Shift();
        low, high := next.low, next.high;
      }
    }

    method UnderflowWhilePossible()
      requires Interval(low, high).Valid() && !Interval(low, high).Shiftable()
      modifies this`low, this`high, this`underflows
      ensures State() == UnderflowAll(old(State()))
    {
      StepValid(Interval(low, high));
      while Interval(low, high).Underflowable()
        invariant 0 <= low < HALF_RANGE <= high < FULL_RANGE
        invariant UnderflowAll(State()) == UnderflowAll(old(State()))
        decreases FULL_RANGE - (high - low)
      {
        UnderflowDoubles(Interval(low, high));
        underflows := underflows + 1;
        var next := Interval(low, high).Underflow();
        low, high := next.low, next.high;
      }
    }

    method Write(freqs: Freqs, symbol: nat)
      requires Valid() && Encodable(freqs, symbol)
      modifies this
      ensures Valid() && sent == old(sent) + [Event(freqs, symbol)]
    {
      hide Run, ShiftAll, UnderflowAll;
      ghost var ev := Event(freqs, symbol);
      RunAppend(sent, ev);
      ShrinkValid(Interval(low, high), ev);
      var shrunk := Shrink(Interval(low, high), freqs, symbol);
      low, high := shrunk.low, shrunk.high;
      ShiftWhilePossible();
      UnderflowWhilePossible();
      sent := sent + [ev];
    }

    /** Make the final interval unambiguous: the output is then the whole stream. */
    method Finalize()
      requires Valid()
      modifies this
      ensures sent == old(sent) && output == Emit(FULL_INTERVAL, sent)
    {
      FinishEmits(sent);
      underflows := underflows + 1;
      WriteShiftBit(if low < QUARTER_RANGE then 0 else 1);
    }
  }
}
