/** The growing ring queue of queue.c. */
module Queues {
  import Arithmetic
  import Bitwise

  predicate IsPowerOfTwo(n: nat) {
    n == 1 || (n > 0 && n % 2 == 0 && IsPowerOfTwo(n / 2))
  }

  /** The slots from `head` up to, and not including, `tail`, around the end of the array. */
  function Items<T>(slots: seq<T>, head: nat, tail: nat): (r: seq<T>)
    requires head < |slots| && tail < |slots|
  {
    if head <= tail then slots[head..tail] else slots[head..] + slots[..tail]
  }

  /** The index `i` places after `head`. */
  function Wrapped(head: nat, i: nat, length: nat): (r: nat)
    requires head < length && i <= length
    ensures r < length
  {
    if head + i < length then head + i else head + i - length
  }

  lemma {:induction false} PowerOfTwo(n: nat) returns (k: nat)
    requires IsPowerOfTwo(n)
    ensures n == Arithmetic.Pow2(k)
  {
    if n == 1 {
      k := 0;
    } else {
      var h := PowerOfTwo(n / 2);
      k := h + 1;
    }
  }

  /** Stepping with a comparison is masking with the length less one, for a length that is a power of two. */
  lemma WrappedIsMask(head: nat, i: nat, length: nat)
    requires IsPowerOfTwo(length) && head < length && i <= length
    ensures Wrapped(head, i, length) == Bitwise.And(head + i, length - 1)
  {
    var k := PowerOfTwo(length);
    Bitwise.AndMask(head + i, k);
    Arithmetic.DivModUnique(if head + i < length then 0 else 1, Wrapped(head, i, length), length);
  }

  lemma ItemAt<T>(slots: seq<T>, head: nat, tail: nat, i: nat)
    requires head < |slots| && tail < |slots| && i < |Items(slots, head, tail)|
    ensures Items(slots, head, tail)[i] == slots[Wrapped(head, i, |slots|)]
  {
  }

  lemma ItemsPush<T>(slots: seq<T>, head: nat, tail: nat, x: T)
    requires head < |slots| && tail < |slots| && |Items(slots, head, tail)| < |slots| - 1
    ensures Items(slots[tail := x], head, Wrapped(tail, 1, |slots|)) == Items(slots, head, tail) + [x]
  {
  }

  lemma ItemsPop<T>(slots: seq<T>, head: nat, tail: nat)
    requires head < |slots| && tail < |slots| && head != tail
    ensures Items(slots, head, tail) == [slots[head]] + Items(slots, Wrapped(head, 1, |slots|), tail)
  {
    if head < tail {
      Cut(slots, head, tail);
    } else {
      Cut(slots, head, |slots|);
      Regroup(slots[head], slots[head + 1..], slots[..tail]);
      if head + 1 == |slots| {
        assert slots[head + 1..] + slots[..tail] == slots[0..tail];
      }
    }
  }

  lemma Cut<T>(s: seq<T>, i: nat, j: nat)
    requires i < j <= |s|
    ensures s[i..j] == [s[i]] + s[i + 1..j] && s[i..|s|] == s[i..] && s[i + 1..|s|] == s[i + 1..]
  {
  }

  lemma Regroup<T>(x: T, s: seq<T>, t: seq<T>)
    ensures ([x] + s) + t == [x] + (s + t)
  {
  }

  lemma ItemsEnds<T>(slots: seq<T>, i: nat)
    requires i < |slots|
    ensures Items(slots, i, i) == [] && Items(slots, 0, i) == slots[..i]
  {
  }

  class Queue<T(0)> {
    var values: array<T>
    // index of the first item
    var head: nat
    // index of the first free slot
    var tail: nat

    ghost predicate Valid()
      reads this
    {
      IsPowerOfTwo(values.Length) && head < values.Length && tail < values.Length
    }

    ghost function Contents(): (r: seq<T>)
      requires Valid()
      reads this, values
    {
      Items(values[..], head, tail)
    }

    constructor (lengthShift: nat)
      ensures Valid() && fresh(values) && Contents() == []
    {
      var length: nat := 1;
      var i := 0;
      while i < lengthShift
        invariant IsPowerOfTwo(length)
      {
        length := 2 * length;
        i := i + 1;
      }
      values := new T[length];
      head, tail := 0, 0;
    }

    function Count(): (n: nat)
      requires Valid()
      reads this, values
      ensures n == |Contents()|
    {
      if head <= tail then tail - head else tail + values.Length - head
    }

    function Next(i: nat): (j: nat)
      requires Valid() && i < values.Length
      reads this
      ensures j == Wrapped(i, 1, values.Length)
    {
      if i + 1 == values.Length then 0 else i + 1
    }

    /** Make room for one more item: a full array is replaced by one of twice its length, in order. */
    method MaybeGrow()
      requires Valid()
      modifies this
      ensures Valid() && Contents() == old(Contents()) && Count() < values.Length - 1
      ensures values == old(values) || fresh(values)
      ensures unchanged(old(values))
    {
      hide Items, Wrapped;
      if Count() == values.Length - 1 {
        var bigger := new T[2 * values.Length];
        var i: nat, pointer: nat := 0, head;
        while pointer != tail
          invariant Valid() && pointer < values.Length && i + |Items(values[..], pointer, tail)| == Count()
          invariant unchanged(this) && unchanged(values)
          invariant bigger[..i] + Items(values[..], pointer, tail) == Contents()
          decreases |Items(values[..], pointer, tail)|
        {
          ItemsPop(values[..], pointer, tail);
          ghost var done := bigger[..i];
          bigger[i] := values[pointer];
          assert bigger[..i + 1] == done + [values[pointer]];
          pointer := Next(pointer);
          i := i + 1;
        }
        ItemsEnds(values[..], tail);
        ItemsEnds(bigger[..], i);
        values, head, tail := bigger, 0, i;
      }
    }

    method Push(x: T)
      requires Valid()
      modifies this, values
      ensures Valid() && Contents() == old(Contents()) + [x]
      ensures values == old(values) || fresh(values)
    {
      hide Items, Wrapped;
      MaybeGrow();
      ghost var slots := values[..];
      ItemsPush(values[..], head, tail, x);
      values[tail] := x;
      assert values[..] == slots[tail := x];
      tail := Next(tail);
    }

    method Pop() returns (x: T)
      requires Valid() && Count() > 0
      modifies this`head
      ensures Valid() && old(Contents()) == [x] + Contents()
    {
      ItemsPop(values[..], head, tail);
      x := values[head];
      head := Next(head);
    }

    function PeekAt(offset: nat): (x: T)
      requires Valid() && offset < Count()
      reads this, values
      ensures x == Contents()[offset]
    {
      ItemAt(values[..], head, tail, offset);
      values[Wrapped(head, offset, values.Length)]
    }

    /** The index of an item counted from the newest. */
    function TailIndex(offset: nat): (i: nat)
      requires Valid() && offset < Count()
      reads this, values
      ensures i == Wrapped(head, Count() - 1 - offset, values.Length)
    {
      if tail >= 1 + offset then tail - 1 - offset else tail + values.Length - 1 - offset
    }

    function PeekTailAt(offset: nat): (x: T)
      requires Valid() && offset < Count()
      reads this, values
      ensures x == Contents()[|Contents()| - 1 - offset]
    {
      ItemAt(values[..], head, tail, Count() - 1 - offset);
      values[TailIndex(offset)]
    }

    /** Write through the pointer to the newest item. */
    method ReplaceTail(x: T)
      requires Valid() && Count() > 0
      modifies values
      ensures Valid() && Contents() == old(Contents())[|old(Contents())| - 1 := x]
    {
      values[TailIndex(0)] := x;
    }
  }
}
