/** The Fenwick tree (fenwick_tree.c): an array of partial sums that refines a flat array of frequencies. */
module FenwickTrees {
  import Arithmetic
  import opened Bitwise
  import opened Frequencies

  /** The lowest set bit of i. */
  function LowBit(i: nat): (b: nat)
    requires i > 0
    ensures 0 < b <= i
  {
    if i % 2 == 1 then 1 else 2 * LowBit(i / 2)
  }

  /** The lowest set bit is i & -i, in unsigned arithmetic of any width that holds i. */
  lemma {:induction false} LowBitIsAnd(i: nat, width: nat)
    requires 0 < i < Arithmetic.Pow2(width)
    ensures And(i, Minus(i, width)) == LowBit(i)
    decreases width
  {
    if i % 2 == 1 {
      Halves(1, Not(Rest(i), width - 1));
      AndNot(Rest(i), width - 1);
    } else {
      Halves(0, Minus(Rest(i), width - 1));
      LowBitIsAnd(Rest(i), width - 1);
    }
  }

  /** i without its lowest set bit. */
  function Parent(i: nat): (p: nat)
    requires i > 0
    ensures p < i
  {
    i - LowBit(i)
  }

  /** Cell j holds the sum of the source cells below j, back to j without its lowest bit. */
  predicate Covers(j: nat, s: nat)
    requires j > 0
  {
    Parent(j) <= s < j
  }

  lemma {:induction false} LowBitInside(i: nat, r: nat)
    requires i > 0 && 0 < r < LowBit(i)
    ensures LowBit(i + r) == LowBit(r)
  {
    if r % 2 == 0 {
      assert (i + r) / 2 == i / 2 + r / 2;
      LowBitInside(i / 2, r / 2);
    }
  }

  lemma {:induction false} LowBitCarries(i: nat)
    requires i > 0
    ensures LowBit(i + LowBit(i)) >= 2 * LowBit(i)
  {
    if i % 2 == 0 {
      LowBitCarries(i / 2);
      assert (i + LowBit(i)) / 2 == i / 2 + LowBit(i / 2);
    }
  }

  /** From one cell that covers a symbol, adding the lowest bit leads to the very next one. */
  lemma NextCover(i: nat, s: nat)
    requires i > 0 && Covers(i, s)
    ensures Covers(i + LowBit(i), s)
    ensures forall j | i < j < i + LowBit(i) :: !Covers(j, s)
  {
    LowBitCarries(i);
    forall j | i < j < i + LowBit(i) ensures !Covers(j, s) {
      LowBitInside(i, j - i);
    }
  }

  /** The first cell that covers symbol s is s + 1. */
  lemma FirstCover(s: nat)
    ensures Covers(s + 1, s)
  {
  }

  class FenwickTree {
    const data: array<nat>
    ghost var values: Freqs

    ghost predicate Valid()
      reads this, data
    {
      && data.Length == |values| + 1
      && forall j | 1 <= j < data.Length :: data[j] == Low(values, j) - Low(values, Parent(j))
    }

    constructor (size: nat)
      ensures Valid() && fresh(data)
      ensures |values| == size && forall i | 0 <= i < size :: values[i] == 0
    {
      data := new nat[size + 1](_ => 0);
      values := seq(size, _ => 0);
      new;
      forall j | 0 <= j <= size ensures Low(values, j) == 0 {
        ZeroSums(values, j);
      }
    }

    method Add(symbol: nat, delta: nat)
      requires Valid() && symbol < |values|
      modifies this, data
      ensures Valid() && values == old(values)[symbol := old(values)[symbol] + delta]
    {
      var i := symbol + 1;
      FirstCover(symbol);
      while i < data.Length
        invariant i > symbol && Covers(i, symbol)
        invariant values == old(values)
        invariant forall j | 1 <= j < data.Length ::
          data[j] == old(data[j]) + if j < i && Covers(j, symbol) then delta else 0
        decreases data.Length - i
      {
        NextCover(i, symbol);
        data[i] := data[i] + delta;
        i := i + LowBit(i);
      }
      values := values[symbol := values[symbol] + delta];
      forall j | 1 <= j < data.Length ensures data[j] == Low(values, j) - Low(values, Parent(j)) {
        LowOfUpdate(old(values), symbol, values[symbol], j);
        LowOfUpdate(old(values), symbol, values[symbol], Parent(j));
      }
    }

    /** Cumulative frequency of a symbol and all below it; zero for -1. */
    method Sum(symbol: int) returns (result: nat)
      requires Valid() && -1 <= symbol < |values|
      ensures result == Low(values, symbol + 1)
    {
      var i := symbol + 1;
      result := 0;
      while i > 0
        invariant 0 <= i <= symbol + 1
        invariant result + Low(values, i) == Low(values, symbol + 1)
      {
        LowMonotone(values, Parent(i), i);
        result := result + data[i];
        i := Parent(i);
      }
    }

    method Get(symbol: nat) returns (result: nat)
      requires Valid() && symbol < |values|
      ensures result == values[symbol]
    {
      var upTo := Sum(symbol);
      var below := Sum(symbol - 1);
      result := upTo - below;
    }

    /** Overwrite all the frequencies; the last `endOffset` symbols get zero. */
    method Fill(source: array<nat>, endOffset: nat)
      requires Valid() && endOffset <= |values| <= source.Length + endOffset && source != data
      modifies this, data
      ensures Valid() && |values| == old(|values|)
      ensures forall k | 0 <= k < |values| :: values[k] == if k < |values| - endOffset then source[k] else 0
    {
      var i := 0;
      while i < data.Length
        invariant 0 <= i <= data.Length && values == old(values)
        invariant forall j | 0 <= j < i :: data[j] == 0
      {
        data[i] := 0;
        i := i + 1;
      }
      values := seq(|values|, _ => 0);
      forall j | 0 <= j <= |values| ensures Low(values, j) == 0 {
        ZeroSums(values, j);
      }
      i := 0;
      while i < data.Length - 1 - endOffset
        invariant 0 <= i <= data.Length - 1 - endOffset && Valid() && |values| == old(|values|)
        invariant forall k | 0 <= k < |values| :: values[k] == if k < i then source[k] else 0
      {
        Add(i, source[i]);
        i := i + 1;
      }
    }

    /** The inverse of Fill: recover the flat array of frequencies. */
    method ToSourceArray(buffer: array<nat>)
      requires Valid() && buffer.Length >= |values| && buffer != data
      modifies buffer
      ensures buffer[..|values|] == values
    {
      var i := 0;
      while i < data.Length - 1
        invariant 0 <= i <= data.Length - 1 && Valid()
        invariant forall k | 0 <= k < i :: buffer[k] == values[k]
      {
        var upTo := Sum(i);
        var below := Sum(i - 1);
        buffer[i] := upTo - below;
        i := i + 1;
      }
    }
  }

  lemma {:induction false} ZeroSums(f: Freqs, s: nat)
    requires s <= |f| && forall i | 0 <= i < |f| :: f[i] == 0
    ensures Low(f, s) == 0
  {
    if s > 0 {
      ZeroSums(f, s - 1);
    }
  }
}
