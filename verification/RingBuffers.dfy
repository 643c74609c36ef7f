/** The byte ring of ring_buffer.c, and what it remembers of an ever-growing history. */
module RingBuffers {
  import opened Arithmetic
  import Bitwise
  import opened Common

  datatype Ring = Ring(content: seq<byte>, position: nat) {
    predicate Valid() {
      position < |content|
    }

    /** The byte at an index, which is truncated to the ring. */
    function Get(index: int): byte
      requires Valid()
    {
      content[index % |content|]
    }

    /** The byte `distance` positions before the next free one. */
    function Back(distance: int): byte
      requires Valid()
    {
      Get(position - distance)
    }

    function Push(b: byte): Ring
      requires Valid()
    {
      Ring(content[position := b], (position + 1) % |content|)
    }
  }

  /** The 64-bit word of an integer in two's complement. */
  function Word(index: int): nat {
    index % Pow2(64)
  }

  /** Masking an index, even a negative one, with the length less one is the remainder, for a length that is a power
      of two. */
  lemma IndexIsMasked(index: int, shift: nat)
    requires shift <= 64
    ensures Bitwise.And(Word(index), Pow2(shift) - 1) == index % Pow2(shift)
  {
    hide Bitwise.And, Pow2;
    PowersMultiply(shift, 64 - shift);
    Bitwise.AndMask(Word(index), shift);
    RemainderOfRemainder(index, Pow2(64 - shift), Pow2(shift));
  }

  lemma RemainderOfRemainder(index: int, turns: nat, length: nat)
    requires turns > 0 && length > 0
    ensures turns * length > 0 && (index % (turns * length)) % length == index % length
  {
    var all := turns * length;
    MulMonotone(1, turns, length);
    var q := index / all;
    assert q * all == (q * turns) * length;
    ModCongruent(index % all, q * turns, length);
  }

  lemma {:induction false} PowersMultiply(a: nat, b: nat)
    ensures Pow2(a + b) == Pow2(b) * Pow2(a)
    decreases b
  {
    if b > 0 {
      PowersMultiply(a, b - 1);
      assert a + b - 1 == a + (b - 1);
      assert 2 * (Pow2(b - 1) * Pow2(a)) == (2 * Pow2(b - 1)) * Pow2(a);
    }
  }

  /** Within one turn, the slot of a distance needs no division. */
  lemma SlotOfDistance(position: nat, distance: nat, length: nat)
    requires position < length && distance <= length
    ensures (position - distance) % length == if distance <= position then position - distance
            else position - distance + length
  {
    if distance <= position {
      DivModUnique(0, position - distance, length);
    } else {
      DivModUnique(-1, position - distance + length, length);
    }
  }

  lemma NextPosition(position: nat, length: nat)
    requires position < length
    ensures (position + 1) % length == if position + 1 < length then position + 1 else 0
  {
    DivModUnique(if position + 1 < length then 0 else 1, if position + 1 < length then position + 1 else 0, length);
  }

  /** A push moves every byte one position further back, and drops only the oldest. */
  lemma PushMovesBack(ring: Ring, b: byte, distance: nat)
    requires ring.Valid() && distance < |ring.content|
    ensures ring.Push(b).Valid()
    ensures ring.Push(b).Back(distance + 1) == if distance == 0 then b else ring.Back(distance)
  {
    var n := |ring.content|;
    NextPosition(ring.position, n);
    SlotOfDistance(ring.position, distance, n);
    SlotOfDistance(ring.Push(b).position, distance + 1, n);
  }

  /** An index that runs ahead of a moving position stays at the same distance from it. */
  lemma SameDistance(ring: Ring, start: int, steps: nat, distance: int)
    requires ring.Valid() && (ring.position - distance - start - steps) % |ring.content| == 0
    ensures ring.Get(start + steps) == ring.Back(distance)
  {
    var n := |ring.content|;
    var x := ring.position - distance - start - steps;
    assert ring.position - distance == start + steps + (x / n) * n;
    ModCongruent(start + steps, x / n, n);
  }

  // ---------------------------------------------------------------- history

  ghost predicate RemembersAt(ring: Ring, history: seq<byte>, distance: int)
    requires ring.Valid() && 1 <= distance <= |history|
  {
    ring.Back(distance) == history[|history| - distance]
  }

  /** The ring holds the last bytes of the history. */
  ghost predicate Remembers(ring: Ring, history: seq<byte>) {
    && ring.Valid() && |ring.content| <= |history|
    && forall distance | 1 <= distance <= |ring.content| :: RemembersAt(ring, history, distance)
  }

  lemma PushRemembers(ring: Ring, history: seq<byte>, b: byte)
    requires Remembers(ring, history)
    ensures Remembers(ring.Push(b), history + [b])
  {
    var r, h := ring.Push(b), history + [b];
    PushMovesBack(ring, b, 0);
    forall distance | 1 <= distance <= |r.content| ensures RemembersAt(r, h, distance) {
      PushMovesBack(ring, b, distance - 1);
      if distance > 1 {
        assert RemembersAt(ring, history, distance - 1);
      }
    }
  }

  /** The last `count` bytes pushed. */
  function Last(ring: Ring, count: nat): (s: seq<byte>)
    requires ring.Valid() && count <= |ring.content|
    ensures |s| == count
  {
    seq(count, k requires 0 <= k < count => ring.Back(count - k))
  }

  lemma PushLast(ring: Ring, b: byte, count: nat)
    requires ring.Valid() && count < |ring.content|
    ensures ring.Push(b).Valid()
    ensures Last(ring.Push(b), count + 1) == Last(ring, count) + [b]
  {
    PushMovesBack(ring, b, 0);
    forall k | 0 <= k <= count
      ensures Last(ring.Push(b), count + 1)[k] == (Last(ring, count) + [b])[k]
    {
      PushMovesBack(ring, b, count - k);
    }
  }

  function EmptyRing(length: nat): (r: Ring)
    requires length > 0
    ensures r.Valid() && |r.content| == length
  {
    Ring(Repeat(0, length), 0)
  }

  /** A zeroed ring remembers a history of zeros, which is what a match before the first byte finds. */
  lemma EmptyRemembers(length: nat)
    requires length > 0
    ensures Remembers(EmptyRing(length), Repeat(0, length))
  {
  }

  // ---------------------------------------------------------------- the object

  class RingBuffer {
    const content: array<byte>
    var position: nat

    ghost predicate Valid()
      reads this
    {
      position < content.Length
    }

    ghost function View(): (r: Ring)
      reads this, content
      ensures |r.content| == content.Length && r.position == position && (r.Valid() <==> Valid())
    {
      Ring(content[..], position)
    }

    constructor (length: nat)
      requires length > 0
      ensures Valid() && fresh(content) && View() == EmptyRing(length)
    {
      content := new byte[length](_ => 0);
      position := 0;
    }

    method Push(b: byte)
      requires Valid()
      modifies this, content
      ensures Valid() && View() == old(View()).Push(b)
    {
      NextPosition(position, content.Length);
      content[position] := b;
      position := (position + 1) % content.Length;
    }

    function Get(index: int): (b: byte)
      reads this, content
      requires Valid()
      ensures b == View().Get(index)
    {
      content[index % content.Length]
    }
  }
}
