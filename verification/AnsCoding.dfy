/** The asymmetrical numeral system coder of ans_encoder.c. */
module AnsCoding {
  import opened Arithmetic
  import opened Common
  import opened Frequencies

  // ---------------------------------------------------------------- one symbol

  function Product(a: nat, b: nat): nat {
    a * b
  }

  function Quot(a: nat, b: nat): nat
    requires b > 0
  {
    a / b
  }

  function Rem(a: nat, b: nat): (r: nat)
    requires b > 0
    ensures r < b
  {
    a % b
  }

  function NextState(f: Freqs, s: nat, state: nat): nat
    requires s < |f| && f[s] > 0
  {
    Product(Quot(state, f[s]), Total(f)) + Rem(state, f[s]) + Low(f, s)
  }

  /** The state before symbol `s` was coded; s must be the owner of the state's offset. */
  function PreviousState(f: Freqs, s: nat, state: nat): (p: nat)
    requires s < |f| && Total(f) > 0 && Low(f, s) <= Rem(state, Total(f))
  {
    Product(f[s], Quot(state, Total(f))) + (Rem(state, Total(f)) - Low(f, s))
  }

  /** Larger states stay larger: within a symbol's share the order of states is kept. */
  lemma NextStateGrows(f: Freqs, s: nat, a: nat, b: nat)
    requires s < |f| && f[s] > 0 && a < b
    ensures NextState(f, s, a) < NextState(f, s, b)
  {
    hide Low;
    LowMonotone(f, s + 1, |f|);
    HighOf(f, s);
    var q, p := Quot(a, f[s]), Quot(b, f[s]);
    QuotRemBack(a, f[s]);
    QuotRemBack(b, f[s]);
    assert (p + 1) * f[s] == p * f[s] + f[s];
    MulMonotone(if p < q then p + 1 else 0, q, f[s]);
    assert !(p < q);
    if q < p {
      MulMonotone(q + 1, p, Total(f));
      assert (q + 1) * Total(f) == q * Total(f) + Total(f);
    }
  }

  /** No state the coder forms leaves 64 bits, as long as the table keeps to the coder's limit. */
  lemma NextStateFits(f: Freqs, s: nat, state: nat)
    requires s < |f| && f[s] > 0 && Total(f) <= MAX_TOTAL && Normal(f, state)
    ensures NextState(f, s, state) < 0x1_0000_0000_0000_0000
  {
    LowMonotone(f, s + 1, |f|);
    var q := Quot(state, f[s]);
    QuotRemBack(state, f[s]);
    MulMonotone(1, f[s], q);
    MulMonotone(q, 2 * MAX_TOTAL, Total(f));
    MulMonotone(Total(f), MAX_TOTAL, 2 * MAX_TOTAL);
  }

  lemma QuotRem(q: nat, r: nat, b: nat)
    requires r < b
    ensures Quot(q * b + r, b) == q && Rem(q * b + r, b) == r
  {
    var x := q * b + r;
    MultipleBound(x / b - q, b);
    assert (x / b - q) * b == r - x % b;
  }

  lemma QuotRemBack(x: nat, b: nat)
    requires b > 0
    ensures x == Product(Quot(x, b), b) + Rem(x, b)
  {
  }

  /** Coding a symbol is undone by decoding it: the offset belongs to that symbol alone. */
  lemma StateBack(f: Freqs, s: nat, state: nat)
    requires s < |f| && f[s] > 0
    ensures Total(f) > 0
    ensures var next := NextState(f, s, state);
            && Find(f, Rem(next, Total(f))) == s
            && Low(f, s) <= Rem(next, Total(f)) && PreviousState(f, s, next) == state
  {
    hide Quot, Rem;
    LowMonotone(f, s + 1, |f|);
    var q, r := Quot(state, f[s]), Rem(state, f[s]);
    QuotRem(q, r + Low(f, s), Total(f));
    FindUnique(f, r + Low(f, s), s);
    QuotRemBack(state, f[s]);
  }

  // ---------------------------------------------------------------- renormalization

  /** States between coding steps: from the total up to twice the total, exclusive. */
  predicate Normal(f: Freqs, state: nat) {
    Total(f) <= state < 2 * Total(f)
  }

  /** The next state is too large exactly if the state is at least twice the symbol's frequency. */
  lemma TooLargeExactly(f: Freqs, s: nat, state: nat)
    requires s < |f| && f[s] > 0
    ensures Total(f) > 0
    ensures NextState(f, s, state) / 2 >= Total(f) <==> state >= 2 * f[s]
    ensures f[s] <= state < 2 * f[s] ==> Normal(f, NextState(f, s, state))
  {
    LowMonotone(f, s + 1, |f|);
    var q, r := Quot(state, f[s]), Rem(state, f[s]);
    QuotRemBack(state, f[s]);
    if state >= 2 * f[s] {
      assert q >= 2 by {
        if q <= 1 { MulMonotone(q, 1, f[s]); }
      }
      MulMonotone(2, q, Total(f));
    } else if state >= f[s] {
      QuotRem(1, state - f[s], f[s]);
    } else {
      QuotRem(0, state, f[s]);
    }
  }

  /** Shift bits out of the state until the symbol can be coded. */
  datatype Emitted = Emitted(bits: seq<bit>, state: nat)

  /** `limit` is the total of the table at the start of the block. */
  function Renormalize(limit: nat, f: Freqs, s: nat, state: nat): (r: Emitted)
    requires s < |f| && f[s] > 0 && Low(f, s) < 2 * limit
    ensures NextState(f, s, r.state) < 2 * limit
    decreases state
  {
    NextOfZero(f, s);
    if NextState(f, s, state) / 2 >= limit then
      var rest := Renormalize(limit, f, s, state / 2);
      Emitted([state % 2] + rest.bits, rest.state)
    else Emitted([], state)
  }

  lemma NextOfZero(f: Freqs, s: nat)
    requires s < |f| && f[s] > 0
    ensures NextState(f, s, 0) == Low(f, s)
  {
    QuotRem(0, 0, f[s]);
  }

  lemma RenormalizeMore(limit: nat, f: Freqs, s: nat, state: nat)
    requires s < |f| && f[s] > 0 && Low(f, s) < 2 * limit
    ensures var r := Renormalize(limit, f, s, state);
            if NextState(f, s, state) / 2 < limit then r == Emitted([], state)
            else
              var rest := Renormalize(limit, f, s, state / 2);
              r.state == rest.state && r.bits == [state % 2] + rest.bits && state > 0
  {
    NextOfZero(f, s);
  }

  lemma LowInside(f: Freqs, s: nat)
    requires s < |f| && f[s] > 0
    ensures Low(f, s) < Total(f)
  {
    LowMonotone(f, s + 1, |f|);
  }

  lemma RenormalizeStep(f: Freqs, s: nat, state: nat)
    requires s < |f| && f[s] > 0
    ensures Low(f, s) < Total(f)
    ensures var r := Renormalize(Total(f), f, s, state);
            if state < 2 * f[s] then r == Emitted([], state)
            else
              var rest := Renormalize(Total(f), f, s, state / 2);
              r.state == rest.state && r.bits == [state % 2] + rest.bits
  {
    hide NextState, Total, Low, Renormalize;
    LowInside(f, s);
    TooLargeExactly(f, s, state);
    RenormalizeMore(Total(f), f, s, state);
  }

  lemma {:induction false} RenormalizedState(f: Freqs, s: nat, state: nat)
    requires s < |f| && f[s] > 0
    ensures Low(f, s) < Total(f)
    ensures var r := Renormalize(Total(f), f, s, state).state; r < 2 * f[s] && (f[s] <= state ==> f[s] <= r)
    decreases state
  {
    hide NextState, Total, Low, Renormalize;
    RenormalizeStep(f, s, state);
    if state >= 2 * f[s] {
      RenormalizedState(f, s, state / 2);
    }
  }

  /** The state after the loop has gone round so often. */
  function ShiftedOut(state: nat, n: nat): nat {
    if n == 0 then state else ShiftedOut(state, n - 1) / 2
  }

  lemma {:induction false} NothingLeft(state: nat, n: nat)
    requires n >= state
    ensures ShiftedOut(state, n) == 0
    decreases state
  {
    if state > 0 {
      ShiftedBefore(state, n);
      NothingLeft(state / 2, n - 1);
    } else if n > 0 {
      ShiftedBefore(0, n);
      NothingLeftOfZero(n);
    }
  }

  lemma {:induction false} NothingLeftOfZero(n: nat)
    ensures ShiftedOut(0, n) == 0
  {
    if n > 0 {
      NothingLeftOfZero(n - 1);
    }
  }

  lemma {:induction false} ShiftedBefore(state: nat, n: nat)
    requires n > 0
    ensures ShiftedOut(state, n) == ShiftedOut(state / 2, n - 1)
    decreases n
  {
    if n > 1 {
      ShiftedBefore(state, n - 1);
    }
  }

  lemma NextAtLeastLow(f: Freqs, s: nat, state: nat)
    requires s < |f| && f[s] > 0
    ensures NextState(f, s, state) >= Low(f, s)
  {
  }

  /** The loop ends, from whatever state, if and only if the counts below the symbol are less than twice the limit. That
      is so with the table the limit comes from, but not with every table that increments lead to. */
  lemma LoopEndsExactly(limit: nat, f: Freqs, s: nat, state: nat)
    requires s < |f| && f[s] > 0
    ensures (exists n: nat :: NextState(f, s, ShiftedOut(state, n)) / 2 < limit) <==> Low(f, s) < 2 * limit
  {
    hide NextState, Low;
    if Low(f, s) < 2 * limit {
      NothingLeft(state, state);
      NextOfZero(f, s);
      assert NextState(f, s, ShiftedOut(state, state)) / 2 < limit;
    }
    forall n: nat | NextState(f, s, ShiftedOut(state, n)) / 2 < limit ensures Low(f, s) < 2 * limit {
      NextAtLeastLow(f, s, ShiftedOut(state, n));
    }
  }

  /** Fill the state with bits up to the total; past the end of the input the reader supplies zeros and
      reports an underflow. */
  datatype Filled = Filled(state: nat, input: seq<bit>, underflow: bool)

  function Refill(total: nat, state: nat, input: seq<bit>): (r: Filled)
    requires state > 0
    ensures total <= r.state
    decreases total - state
  {
    if state >= total then Filled(state, input, false)
    else if input == [] then Refill(total, 2 * state, []).(underflow := true)
    else Refill(total, 2 * state + input[0], input[1..])
  }

  function Reverse(bits: seq<bit>): (r: seq<bit>)
    ensures |r| == |bits|
  {
    if bits == [] then [] else Reverse(bits[1..]) + [bits[0]]
  }

  lemma {:induction false} ReverseJoin(a: seq<bit>, b: seq<bit>)
    ensures Reverse(a + b) == Reverse(b) + Reverse(a)
    decreases |a|
  {
    if a == [] {
      assert a + b == b;
    } else {
      assert (a + b)[1..] == a[1..] + b;
      ReverseJoin(a[1..], b);
    }
  }

  /** Refilling reads exactly the bits that renormalization wrote, last one first, and restores the state. */
  lemma {:induction false} RefillUndoes(f: Freqs, s: nat, state: nat, rest: seq<bit>)
    requires s < |f| && 0 < f[s] <= state < 2 * Total(f)
    ensures Low(f, s) < Total(f)
    ensures var r := Renormalize(Total(f), f, s, state);
            r.state > 0 && Refill(Total(f), r.state, Reverse(r.bits) + rest) == Refill(Total(f), state, rest)
    decreases state
  {
    hide NextState, Total, Low, Renormalize, Refill, Reverse;
    RenormalizeStep(f, s, state);
    var r := Renormalize(Total(f), f, s, state);
    if state < 2 * f[s] {
      NothingReversed(rest);
    } else {
      var half := Renormalize(Total(f), f, s, state / 2);
      RefillUndoes(f, s, state / 2, [state % 2] + rest);
      ReversedFirst(state % 2, half.bits, rest);
      RefillOne(Total(f), state, rest);
    }
  }

  lemma NothingReversed(rest: seq<bit>)
    ensures Reverse([]) + rest == rest
  {
  }

  lemma ReversedFirst(b: bit, bits: seq<bit>, rest: seq<bit>)
    ensures Reverse([b] + bits) + rest == Reverse(bits) + ([b] + rest)
  {
    assert ([b] + bits)[1..] == bits;
  }

  /** A state that is half another, below the total, takes the other's lowest bit. */
  lemma RefillOne(total: nat, state: nat, rest: seq<bit>)
    requires 2 <= state < 2 * total
    ensures Refill(total, state / 2, [state % 2] + rest) == Refill(total, state, rest)
  {
    assert ([state % 2] + rest)[1..] == rest;
  }

  // ---------------------------------------------------------------- symbols and blocks

  function EncodeAgainst(limit: nat, f: Freqs, s: nat, state: nat): (r: Emitted)
    requires s < |f| && f[s] > 0 && Low(f, s) < 2 * limit
    ensures r.state < 2 * limit
  {
    var low := Renormalize(limit, f, s, state);
    Emitted(low.bits, NextState(f, s, low.state))
  }

  function EncodeSymbol(f: Freqs, s: nat, state: nat): (r: Emitted)
    requires s < |f| && f[s] > 0 && Normal(f, state)
    ensures Normal(f, r.state)
  {
    RenormalizedState(f, s, state);
    LowMonotone(f, s + 1, |f|);
    TooLargeExactly(f, s, Renormalize(Total(f), f, s, state).state);
    EncodeAgainst(Total(f), f, s, state)
  }

  datatype Decoded = Decoded(symbol: nat, after: Filled)

  function DecodeSymbol(f: Freqs, state: nat, input: seq<bit>): (r: Decoded)
    requires 0 < Total(f) <= state
    ensures r.symbol < |f| && f[r.symbol] > 0 && Total(f) <= r.after.state
  {
    var s := Find(f, Rem(state, Total(f)));
    PreviousPositive(f, s, state);
    Decoded(s, Refill(Total(f), PreviousState(f, s, state), input))
  }

  lemma HighOf(f: Freqs, s: nat)
    requires s < |f|
    ensures High(f, s) == Low(f, s) + f[s]
  {
  }

  lemma PreviousPositive(f: Freqs, s: nat, state: nat)
    requires s < |f| && 0 < Total(f) <= state && Low(f, s) <= Rem(state, Total(f)) < High(f, s)
    ensures f[s] > 0 && PreviousState(f, s, state) > 0
  {
    hide Quot, Rem, Total, Low;
    assert f[s] > 0 by {
      assert High(f, s) == Low(f, s) + f[s] by { HighOf(f, s); }
    }
    QuotRemBack(state, Total(f));
    MulMonotone(1, f[s], Quot(state, Total(f)));
  }

  /** Decoding reads exactly the bits its encoding step wrote and restores the state before it. */
  lemma DecodeUndoes(f: Freqs, s: nat, state: nat, rest: seq<bit>)
    requires s < |f| && f[s] > 0 && Normal(f, state)
    ensures var r := EncodeSymbol(f, s, state);
            DecodeSymbol(f, r.state, Reverse(r.bits) + rest) == Decoded(s, Filled(state, rest, false))
  {
    hide NextState, PreviousState, Renormalize, Rem, Find;
    LowMonotone(f, s + 1, |f|);
    RenormalizedState(f, s, state);
    var low := Renormalize(Total(f), f, s, state);
    StateBack(f, s, low.state);
    RefillUndoes(f, s, state, rest);
  }

  predicate Codable(f: Freqs, block: seq<nat>) {
    forall i | 0 <= i < |block| :: block[i] < |f| && f[block[i]] > 0
  }

  /** The block is coded from its last symbol to its first. */
  function EncodeBlock(f: Freqs, block: seq<nat>, state: nat): (r: Emitted)
    requires Codable(f, block) && Normal(f, state)
    ensures Normal(f, r.state)
    decreases |block|
  {
    if block == [] then Emitted([], state)
    else
      var rest := EncodeBlock(f, block[1..], state);
      var first := EncodeSymbol(f, block[0], rest.state);
      Emitted(rest.bits + first.bits, first.state)
  }

  // ---------------------------------------------------------------- blocks that change the table

  /** The table after a block, whose symbols are counted from the last to the first. */
  function TableAfter(f: Freqs, block: seq<nat>, increment: bool): (g: Freqs)
    requires (increment ==> |f| < MAX_TOTAL) && forall i | 0 <= i < |block| :: block[i] < |f|
    ensures |g| == |f|
  {
    if block == [] || !increment then f
    else
      var g := TableAfter(f, block[1..], increment);
      PositiveAtMostLength(g);
      Increment(g, block[0])
  }

  lemma {:induction false} StillPositive(f: Freqs, block: seq<nat>, increment: bool)
    requires (increment ==> |f| < MAX_TOTAL) && Codable(f, block)
    ensures forall i | 0 <= i < |f| && f[i] > 0 :: TableAfter(f, block, increment)[i] > 0
    decreases |block|
  {
    if block != [] && increment {
      var g := TableAfter(f, block[1..], increment);
      StillPositive(f, block[1..], increment);
      PositiveAtMostLength(g);
      IncrementKeeps(g, block[0]);
    }
  }

  /** Whether the loop ends at every symbol, the limit being the total before the block. */
  predicate LoopsEnd(limit: nat, f: Freqs, block: seq<nat>, increment: bool)
    requires (increment ==> |f| < MAX_TOTAL) && Codable(f, block)
    decreases |block|
  {
    block != [] ==>
      && LoopsEnd(limit, f, block[1..], increment)
      && Low(TableAfter(f, block[1..], increment), block[0]) < 2 * limit
  }

  function EncodeChanging(limit: nat, f: Freqs, block: seq<nat>, state: nat, increment: bool): (r: Emitted)
    requires (increment ==> |f| < MAX_TOTAL) && Codable(f, block) && LoopsEnd(limit, f, block, increment)
    requires state < 2 * limit
    ensures r.state < 2 * limit
    decreases |block|
  {
    if block == [] then Emitted([], state)
    else
      StillPositive(f, block[1..], increment);
      var rest := EncodeChanging(limit, f, block[1..], state, increment);
      var first := EncodeAgainst(limit, TableAfter(f, block[1..], increment), block[0], rest.state);
      Emitted(rest.bits + first.bits, first.state)
  }

  /** With a table that does not change the loops always end, and this is the coding that `BlockRoundTrip` undoes. */
  lemma {:induction false} UnchangedBlock(f: Freqs, block: seq<nat>, state: nat)
    requires Codable(f, block) && Normal(f, state)
    ensures LoopsEnd(Total(f), f, block, false)
    ensures EncodeChanging(Total(f), f, block, state, false) == EncodeBlock(f, block, state)
    decreases |block|
  {
    hide Renormalize, NextState, Total, Low, EncodeAgainst;
    if block != [] {
      UnchangedBlock(f, block[1..], state);
      LowInside(f, block[0]);
      SameStep(f, block[0], EncodeBlock(f, block[1..], state).state);
    }
  }

  lemma SameStep(f: Freqs, s: nat, state: nat)
    requires s < |f| && f[s] > 0 && Normal(f, state)
    ensures Low(f, s) < Total(f) && EncodeSymbol(f, s, state) == EncodeAgainst(Total(f), f, s, state)
  {
    LowInside(f, s);
  }

  /** A block for which the incrementing variant never returns. */
  lemma IncrementingNeverEnds()
    ensures var f: Freqs := [1, 1];
            Codable(f, [1, 0, 0, 0]) && LoopsEnd(2, f, [0, 0, 0], true) && !LoopsEnd(2, f, [1, 0, 0, 0], true)
    ensures TableAfter([1, 1], [0, 0, 0], true) == [4, 1]
    ensures Total([1, 1]) == 2 && forall n: nat :: NextState([4, 1], 1, ShiftedOut(2, n)) / 2 >= 2
  {
    hide NextState, ShiftedOut;
    var f: Freqs := [1, 1];
    SmallIncrement(1);
    SmallIncrement(2);
    SmallIncrement(3);
    assert [0][1..] == [] && [0, 0][1..] == [0] && [0, 0, 0][1..] == [0, 0] && [1, 0, 0, 0][1..] == [0, 0, 0];
    assert TableAfter(f, [], true) == [1, 1];
    assert TableAfter(f, [0], true) == [2, 1];
    assert TableAfter(f, [0, 0], true) == [3, 1];
    assert TableAfter(f, [0, 0, 0], true) == [4, 1];
    LoopEndsExactly(2, [4, 1], 1, 2);
  }

  lemma SmallIncrement(n: nat)
    requires 0 < n < 10
    ensures PositiveCount([n, 1]) < MAX_TOTAL && Increment([n, 1], 0) == [n + 1, 1]
    ensures Low([n, 1], 0) == 0 && Low([n, 1], 1) == n && Total([n, 1]) == n + 1 && Low([n + 1, 1], 1) == n + 1
  {
    var f: Freqs := [n, 1];
    PositiveAtMostLength(f);
    assert Low(f, 1) == Low(f, 0) + f[0] && Low(f, 2) == Low(f, 1) + f[1];
    var g: Freqs := [n + 1, 1];
    assert Low(g, 1) == Low(g, 0) + g[0];
  }

  datatype BlockRead = BlockRead(symbols: seq<nat>, after: Filled)

  function DecodeBlock(f: Freqs, state: nat, input: seq<bit>, n: nat): (r: BlockRead)
    requires 0 < Total(f) <= state
    ensures |r.symbols| == n
    decreases n
  {
    if n == 0 then BlockRead([], Filled(state, input, false))
    else
      var first := DecodeSymbol(f, state, input);
      var rest := DecodeBlock(f, first.after.state, first.after.input, n - 1);
      BlockRead([first.symbol] + rest.symbols, rest.after.(underflow := first.after.underflow || rest.after.underflow))
  }

  /** A block decodes to itself from its final state and its bits in reverse order; the decoder ends in the
      state the encoder began with, exactly at the end of the block's bits. */
  lemma {:induction false} BlockRoundTrip(f: Freqs, block: seq<nat>, state: nat, rest: seq<bit>)
    requires Codable(f, block) && Normal(f, state)
    ensures var r := EncodeBlock(f, block, state);
            DecodeBlock(f, r.state, Reverse(r.bits) + rest, |block|) == BlockRead(block, Filled(state, rest, false))
    decreases |block|
  {
    hide EncodeSymbol, DecodeSymbol, Total;
    var r := EncodeBlock(f, block, state);
    if block == [] {
      assert Reverse(r.bits) + rest == rest;
    } else {
      var tail := EncodeBlock(f, block[1..], state);
      var first := EncodeSymbol(f, block[0], tail.state);
      ReverseJoin(tail.bits, first.bits);
      assert Reverse(r.bits) + rest == Reverse(first.bits) + (Reverse(tail.bits) + rest);
      DecodeUndoes(f, block[0], tail.state, Reverse(tail.bits) + rest);
      BlockRoundTrip(f, block[1..], state, rest);
    }
  }

  // ---------------------------------------------------------------- the objects

  class AnsEncoder {
    var output: seq<bit>

    constructor ()
      ensures output == []
    {
      output := [];
    }

    /** One symbol of a block: shift bits out until its next state is small enough. */
    method WriteSymbol(s: nat, f: Freqs, limit: nat, state: nat) returns (next: nat)
      requires s < |f| && f[s] > 0 && Low(f, s) < 2 * limit
      modifies this
      ensures var r := EncodeAgainst(limit, f, s, state); next == r.state && output == old(output) + r.bits
    {
      hide Total, NextState, Renormalize, Low;
      var normalized := state;
      next := NextState(f, s, normalized);
      while next / 2 >= limit
        invariant next == NextState(f, s, normalized)
        invariant var r, r0 := Renormalize(limit, f, s, normalized), Renormalize(limit, f, s, state);
                  r.state == r0.state && output + r.bits == old(output) + r0.bits
        decreases normalized
      {
        RenormalizeMore(limit, f, s, normalized);
        output := output + [normalized % 2];
        normalized := normalized / 2;
        next := NextState(f, s, normalized);
      }
      RenormalizeMore(limit, f, s, normalized);
      assert output + [] == output;
    }

    /** Code a block, counting its symbols in the table if asked to; the result is the state the decoder starts
        from, and the table afterwards. The loops must end. */
    method WriteBlock(block: seq<nat>, f: Freqs, increment: bool) returns (state: nat, table: Freqs)
      requires |block| > 0 && (increment ==> |f| < MAX_TOTAL) && Codable(f, block)
      requires LoopsEnd(Total(f), f, block, increment)
      modifies this
      ensures Total(f) > 0 && table == TableAfter(f, block, increment)
      ensures var r := EncodeChanging(Total(f), f, block, Total(f), increment);
              state == r.state && output == old(output) + r.bits
    {
      hide Total, EncodeAgainst, Low, Increment, EncodeChanging, TableAfter, LoopsEnd;
      CodableTotal(f, block[0]);
      NothingCoded(Total(f), f, increment);
      var total := Total(f);
      state, table := total, f;
      var i := |block|;
      assert block[i..] == [];
      while i > 0
        invariant 0 <= i <= |block| && Codable(f, block[i..]) && LoopsEnd(total, f, block[i..], increment)
        invariant table == TableAfter(f, block[i..], increment)
        invariant var r := EncodeChanging(total, f, block[i..], total, increment);
                  state == r.state && output == old(output) + r.bits
      {
        i := i - 1;
        assert block[i..][1..] == block[i + 1..];
        LoopsEndFrom(total, f, block, i, increment);
        StillPositive(f, block[i + 1..], increment);
        EncodeFirst(total, f, block[i..], total, increment);
        state := WriteSymbol(block[i], table, total, state);
        if increment {
          PositiveAtMostLength(table);
          table := Increment(table, block[i]);
        }
      }
      assert block[0..] == block;
    }
  }

  lemma NothingCoded(limit: nat, f: Freqs, increment: bool)
    requires (increment ==> |f| < MAX_TOTAL) && limit > 0
    ensures LoopsEnd(limit, f, [], increment) && TableAfter(f, [], increment) == f
    ensures EncodeChanging(limit, f, [], limit, increment) == Emitted([], limit)
  {
  }

  lemma EncodeFirst(limit: nat, f: Freqs, block: seq<nat>, state: nat, increment: bool)
    requires (increment ==> |f| < MAX_TOTAL) && Codable(f, block) && LoopsEnd(limit, f, block, increment)
    requires block != [] && state < 2 * limit
    ensures var more, s := block[1..], block[0];
            var g, before := TableAfter(f, more, increment), EncodeChanging(limit, f, more, state, increment);
            && g[s] > 0 && Low(g, s) < 2 * limit
            && (increment ==> PositiveCount(g) < MAX_TOTAL)
            && TableAfter(f, block, increment) == (if increment then Increment(g, s) else f)
            && (!increment ==> g == f)
            && EncodeChanging(limit, f, block, state, increment) ==
               Emitted(before.bits + EncodeAgainst(limit, g, s, before.state).bits,
                       EncodeAgainst(limit, g, s, before.state).state)
  {
    hide EncodeAgainst, Low, Increment;
    StillPositive(f, block[1..], increment);
    PositiveAtMostLength(TableAfter(f, block[1..], increment));
  }

  lemma {:induction false} LoopsEndFrom(limit: nat, f: Freqs, block: seq<nat>, i: nat, increment: bool)
    requires (increment ==> |f| < MAX_TOTAL) && Codable(f, block) && LoopsEnd(limit, f, block, increment)
    requires i <= |block|
    ensures Codable(f, block[i..]) && LoopsEnd(limit, f, block[i..], increment)
    decreases |block|
  {
    if i == 0 {
      assert block[0..] == block;
    } else {
      LoopsEndFrom(limit, f, block[1..], i - 1, increment);
      assert block[1..][i - 1..] == block[i..];
    }
  }

  lemma CodableTotal(f: Freqs, s: nat)
    requires s < |f| && f[s] > 0
    ensures Total(f) > 0
  {
    LowMonotone(f, s + 1, |f|);
  }

  class AnsDecoder {
    // what the reader still holds, and whether more was asked of it
    var input: seq<bit>
    var underflow: bool
    var state: nat

    constructor (bits: seq<bit>, state: nat)
      ensures input == bits && !underflow && this.state == state
    {
      input, underflow, this.state := bits, false, state;
    }

    method ReadBit() returns (b: bit)
      modifies this`input, this`underflow
      ensures if old(input) == [] then b == 0 && underflow && input == []
              else b == old(input)[0] && input == old(input)[1..] && underflow == old(underflow)
    {
      if |input| > 0 {
        b, input := input[0], input[1..];
      } else {
        b, underflow := 0, true;
      }
    }

    method FindSymbol(f: Freqs, offset: nat) returns (s: nat)
      requires offset < Total(f)
      ensures s == Find(f, offset)
    {
      var start, end := 0, |f|;
      while end - start > 1
        invariant 0 <= start < end <= |f| && Low(f, start) <= offset < Low(f, end)
      {
        var middle := (start + end) / 2;
        if Low(f, middle) > offset {
          end := middle;
        } else {
          start := middle;
        }
      }
      FindUnique(f, offset, start);
      s := start;
    }

    method Read(f: Freqs) returns (s: nat)
      requires 0 < Total(f) <= state
      modifies this
      ensures var r := DecodeSymbol(f, old(state), old(input));
              s == r.symbol && state == r.after.state && input == r.after.input
                && underflow == (old(underflow) || r.after.underflow)
    {
      hide Total, Quot, Rem, Product, Find;
      var total := Total(f);
      s := FindSymbol(f, Rem(state, total));
      PreviousPositive(f, s, state);
      state := PreviousState(f, s, state);
      ghost var goal := Refill(total, state, input);
      while state < total
        invariant state > 0
        invariant var r := Refill(total, state, input);
                  r.state == goal.state && r.input == goal.input
                    && (underflow || r.underflow) == (old(underflow) || goal.underflow)
        decreases total - state
      {
        var b := ReadBit();
        state := 2 * state + b;
      }
    }
  }

  /** Encode a block, reverse its bits, and decode it. */
  method BlockThereAndBack(block: seq<nat>, f: Freqs) returns (decoded: seq<nat>, decoder: AnsDecoder)
    requires |block| > 0 && Codable(f, block)
    ensures decoded == block && decoder.state == Total(f) && decoder.input == [] && !decoder.underflow
  {
    hide Total, EncodeBlock, DecodeSymbol, EncodeChanging, LoopsEnd, TableAfter;
    CodableTotal(f, block[0]);
    var encoder := new AnsEncoder();
    UnchangedBlock(f, block, Total(f));
    var state, table := encoder.WriteBlock(block, f, false);
    BlockRoundTrip(f, block, Total(f), []);
    assert encoder.output == EncodeBlock(f, block, Total(f)).bits;
    var bits := Reverse(encoder.output);
    assert bits + [] == bits;
    decoder := new AnsDecoder(bits, state);
    decoded := [];
    while |decoded| < |block|
      invariant |decoded| <= |block| && Total(f) <= decoder.state && fresh(decoder)
      invariant var r := DecodeBlock(f, decoder.state, decoder.input, |block| - |decoded|);
                && decoded + r.symbols == block && r.after.state == Total(f) && r.after.input == []
                && !decoder.underflow && !r.after.underflow
    {
      var s := decoder.Read(f);
      decoded := decoded + [s];
    }
  }
}
