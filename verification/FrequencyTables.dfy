/** The in-place frequency table (frequency_table.c): a Fenwick tree and its running total. */
module FrequencyTables {
  import opened Frequencies
  import FenwickTrees

  class FrequencyTable {
    const frequencies: FenwickTrees.FenwickTree
    const compactionBuffer: array<nat>
    const isEofIncluded: bool
    var total: nat

    ghost predicate Valid()
      reads this, frequencies, frequencies.data
    {
      && frequencies.Valid()
      && compactionBuffer != frequencies.data
      && compactionBuffer.Length == |frequencies.values|
      && total == Total(frequencies.values)
      && (isEofIncluded ==> |frequencies.values| > 0)
    }

    /** The flat list of frequencies the table stands for. */
    ghost function View(): Freqs
      reads this, frequencies
    {
      frequencies.values
    }

    ghost function Repr(): set<object> {
      {this, frequencies, frequencies.data, compactionBuffer}
    }

    /** One step of the halving: every frequency divided by two, rounding up. */
    method DivideByHalf()
      requires Valid()
      modifies Repr()
      ensures Valid() && View() == Halve(old(View()))
    {
      var length := frequencies.data.Length - 1;
      frequencies.ToSourceArray(compactionBuffer);
      ghost var source, halved := View(), Halve(View());
      var newTotal, i := 0, 0;
      while i < length
        invariant 0 <= i <= length && Valid() && View() == source
        invariant newTotal == Low(halved, i)
        invariant forall k | 0 <= k < length :: compactionBuffer[k] == if k < i then halved[k] else source[k]
      {
        var freq := compactionBuffer[i];
        if freq % 2 == 1 {
          freq := freq + 1;
        }
        freq := freq / 2;
        compactionBuffer[i] := freq;
        newTotal := newTotal + freq;
        i := i + 1;
      }
      frequencies.Fill(compactionBuffer, 0);
      assert frequencies.values == halved;
      total := newTotal;
    }

    /** Ends, because the limit exceeds the number of symbols in use. */
    method HalveUntilTotalBelowLimit(limit: nat)
      requires Valid() && PositiveCount(View()) < limit
      modifies Repr()
      ensures Valid() && View() == HalveUntil(old(View()), limit)
    {
      while total >= limit
        invariant Valid() && PositiveCount(View()) < limit
        invariant HalveUntil(View(), limit) == HalveUntil(old(View()), limit)
        decreases total
      {
        HalveShrinks(View(), |View()|);
        DivideByHalf();
      }
    }

    method IncrementSymbol(symbol: nat)
      requires Valid() && symbol < |View()| && PositiveCount(View()) < MAX_TOTAL
      modifies Repr()
      ensures Valid() && View() == Increment(old(View()), symbol)
    {
      HalveUntilTotalBelowLimit(MAX_TOTAL);
      total := total + 1;
      LowOfUpdate(View(), symbol, View()[symbol] + 1, |View()|);
      frequencies.Add(symbol, 1);
    }

    /** `length` symbols, an end-of-file symbol if asked for, all starting from zero or from one. */
    constructor (length: nat, includeEof: bool, initOne: bool)
      requires length + 1 < MAX_TOTAL
      ensures Valid() && isEofIncluded == includeEof && fresh(Repr())
      ensures |View()| == length + if includeEof then 1 else 0
      ensures forall k | 0 <= k < length :: View()[k] == if initOne then 1 else 0
      ensures includeEof ==> View()[length] == 1
    {
      var size := length + if includeEof then 1 else 0;
      isEofIncluded := includeEof;
      frequencies := new FenwickTrees.FenwickTree(size);
      compactionBuffer := new nat[size];
      total := 0;
      new;
      FenwickTrees.ZeroSums(View(), size);
      if isEofIncluded {
        PositiveAtMostLength(View());
        LowOfUpdate(View(), length, 1, size);
        IncrementSymbol(length);
      }
      if initOne {
        var i := 0;
        while i < length
          invariant 0 <= i <= length && Valid() && |View()| == size
          invariant total == i + size - length
          invariant forall k | 0 <= k < size :: View()[k] == if k < i || k == length then 1 else 0
        {
          PositiveAtMostLength(View());
          LowOfUpdate(View(), i, 1, size);
          IncrementSymbol(i);
          i := i + 1;
        }
      }
    }

    /** Frequencies come without end-of-file; it is then incremented once if the table has it. */
    method FillFromFrequencies(source: array<nat>)
      requires Valid() && source !in Repr() && |View()| < MAX_TOTAL
      requires source.Length == |View()| - if isEofIncluded then 1 else 0
      modifies Repr()
      ensures Valid() && View() == FilledFrom(source[..], isEofIncluded)
    {
      var length := source.Length;
      frequencies.Fill(source, if isEofIncluded then 1 else 0);
      assert View() == if isEofIncluded then source[..] + [0] else source[..];
      var sum, i := 0, 0;
      while i < length
        invariant 0 <= i <= length && sum == Low(View(), i) && sum == Low(source[..], i)
      {
        sum := sum + source[i];
        i := i + 1;
      }
      total := sum;
      PositiveAtMostLength(View());
      if isEofIncluded {
        IncrementSymbol(length);
      }
    }

    /** Sum of the frequencies strictly below the symbol. */
    method GetLow(symbol: nat) returns (low: nat)
      requires Valid() && symbol < |View()|
      ensures low == Low(View(), symbol)
    {
      if symbol == 0 {
        low := 0;
      } else {
        low := frequencies.Sum(symbol - 1);
      }
    }

    /** Sum of the frequencies of the symbol and all below it. */
    method GetHigh(symbol: nat) returns (high: nat)
      requires Valid() && symbol < |View()|
      ensures high == High(View(), symbol)
    {
      high := frequencies.Sum(symbol);
    }

    method GetFrequency(symbol: nat) returns (freq: nat)
      requires Valid() && symbol < |View()|
      ensures freq == View()[symbol]
    {
      freq := frequencies.Get(symbol);
    }
  }
}
