/** The bit and byte writer over a queue of buffers (buffer.c, writer.c). */
module Writers {
  import opened Common
  import opened Bits
  import opened Queues

  /** A byte array, all of it, and how many of its bytes are meaningful once it is handed out. */
  datatype Buffer = Buffer(data: seq<byte>, length: nat)

  /** The bytes of full buffers, in order. */
  function AllData(buffers: seq<Buffer>): seq<byte> {
    if buffers == [] then [] else buffers[0].data + AllData(buffers[1..])
  }

  lemma {:induction false} AllDataJoin(a: seq<Buffer>, b: seq<Buffer>)
    ensures AllData(a + b) == AllData(a) + AllData(b)
    decreases |a|
  {
    if a == [] {
      assert a + b == b;
    } else {
      assert (a + b)[1..] == a[1..] + b;
      AllDataJoin(a[1..], b);
    }
  }

  predicate Usable(buffers: seq<Buffer>) {
    forall i | 0 <= i < |buffers| :: |buffers[i].data| > 0
  }

  /** What a writer stores: full buffers, and one that is being filled. */
  datatype Stored = Stored(full: seq<Buffer>, current: Buffer, bitIndex: nat) {
    predicate Valid() {
      Usable(full) && |current.data| > 0 && ZeroAbove(current.data, bitIndex)
    }

    function Bits(): seq<bit>
      requires bitIndex <= 8 * |current.data|
    {
      ToBits(AllData(full)) + ToBits(current.data)[..bitIndex]
    }
  }

  /** The bits in the current buffer become those of a full one when it is replaced. */
  lemma FilledBits(s: Stored, next: Buffer)
    requires s.Valid() && s.bitIndex == 8 * |s.current.data|
    ensures Stored(s.full + [s.current], next, 0).Bits() == s.Bits()
    ensures |AllData(s.full + [s.current])| == |AllData(s.full)| + |s.current.data|
  {
    hide ToBits;
    AllDataJoin(s.full, [s.current]);
    assert AllData([s.current]) == s.current.data + [] == s.current.data;
    ToBitsJoin(AllData(s.full), s.current.data);
    assert ToBits(s.current.data)[..s.bitIndex] == ToBits(s.current.data);
    var all := ToBits(AllData(s.full + [s.current]));
    assert Stored(s.full + [s.current], next, 0).Bits() == all + [] == all;
  }

  lemma WrittenBits(s: Stored, x: bit)
    requires s.Valid() && s.bitIndex < 8 * |s.current.data|
    ensures var k, data := ByteIndex(s.bitIndex), s.current.data;
            && k < |data|
            && var s' := s.(current := s.current.(data := data[k := WithBit(data, s.bitIndex, x)]), bitIndex :=
               s.bitIndex + 1);
            s'.Valid() && s'.Bits() == s.Bits() + [x]
  {
    hide ToBits, ZeroAbove, WithBit;
    WriteBitAppends(s.current.data, s.bitIndex, x);
  }

  lemma WrittenByte(s: Stored, b: byte)
    requires s.Valid() && s.bitIndex < 8 * |s.current.data| && InByte(s.bitIndex) == 0
    ensures var k, data := ByteIndex(s.bitIndex), s.current.data;
            && k < |data|
            && var s' := s.(current := s.current.(data := data[k := b]), bitIndex := s.bitIndex + 8);
            s'.Valid() && s'.Bits() == s.Bits() + ToBits([b])
  {
    hide ToBits, ZeroAbove, InByte, ByteIndex;
    PlaceOf(s.bitIndex);
    WriteByteAppends(s.current.data, s.bitIndex, b);
  }

  /** The oldest full buffer comes before everything else. */
  lemma OldestBits(s: Stored)
    requires s.Valid() && s.full != []
    ensures s.(full := s.full[1..]).Valid()
    ensures s.Bits() == ToBits(s.full[0].data) + s.(full := s.full[1..]).Bits()
    ensures |AllData(s.full)| == |s.full[0].data| + |AllData(s.full[1..])|
  {
    hide ToBits;
    ToBitsJoin(s.full[0].data, AllData(s.full[1..]));
    RegroupBits(ToBits(s.full[0].data), ToBits(AllData(s.full[1..])), ToBits(s.current.data)[..s.bitIndex]);
  }

  lemma RegroupBits(a: seq<bit>, b: seq<bit>, c: seq<bit>)
    ensures (a + b) + c == a + (b + c)
  {
  }

  /** With no full buffer left, the current one holds the rest, and fewer than eight zeros. */
  lemma LastBits(s: Stored)
    requires s.Valid() && s.full == []
    ensures var m := BytesFor(s.bitIndex);
            && m <= |s.current.data| && s.bitIndex <= 8 * m < s.bitIndex + 8
            && ToBits(s.current.data[..m]) == s.Bits() + Repeat(0, 8 * m - s.bitIndex)
  {
    PaddedBits(s.current.data, s.bitIndex);
    hide ToBits, ZeroAbove;
    assert ToBits([]) == [];
    assert s.Bits() == ToBits(s.current.data)[..s.bitIndex];
  }

  // ---------------------------------------------------------------- the object

  class Writer {
    const buffers: Queue<Buffer>
    const freeBuffers: Queue<Buffer>
    const singleBufferByteSize: nat
    // bytes in full buffers
    var bytesStored: int
    var currentBitIndex: nat
    // every bit received, padding included once it is handed out, and every byte handed out
    ghost var written: seq<bit>
    ghost var consumed: seq<byte>

    ghost predicate Separate()
      reads this, buffers, freeBuffers
    {
      buffers != freeBuffers && buffers.values != freeBuffers.values
    }

    ghost function View(): Stored
      requires buffers.Valid() && buffers.Count() > 0
      reads this, buffers, buffers.values
    {
      var all := buffers.Contents();
      Stored(all[..|all| - 1], all[|all| - 1], currentBitIndex)
    }

    /** Every bit received is among the bytes handed out or the bits stored, in order. */
    ghost predicate Valid()
      reads this, buffers, buffers.values, freeBuffers, freeBuffers.values
    {
      && Separate() && buffers.Valid() && freeBuffers.Valid() && buffers.Count() > 0 && singleBufferByteSize > 0
      && Usable(freeBuffers.Contents()) && View().Valid()
      && bytesStored == |AllData(View().full)|
      && ToBits(consumed) + View().Bits() == written
    }

    /** Between calls there is always room in the current buffer. */
    ghost predicate Ready()
      reads this, buffers, buffers.values, freeBuffers, freeBuffers.values
    {
      Valid() && currentBitIndex < 8 * |View().current.data|
    }

    constructor (singleBufferByteSize: nat, queuesSizeShift: nat)
      requires singleBufferByteSize > 0
      ensures Ready() && written == [] && consumed == []
      ensures fresh(buffers) && fresh(buffers.values) && fresh(freeBuffers) && fresh(freeBuffers.values)
    {
      hide Queue.Contents, ToBits, ZeroAbove, Stored.Bits;
      this.singleBufferByteSize := singleBufferByteSize;
      buffers := new Queue(queuesSizeShift);
      freeBuffers := new Queue(queuesSizeShift);
      bytesStored, currentBitIndex := 0, 0;
      written, consumed := [], [];
      new;
      var first := Buffer(Repeat(0, singleBufferByteSize), 0);
      buffers.Push(first);
      assert View() == Stored([], first, 0);
      NothingLeft(View());
      assert ToBits([]) == [];
    }

    /** A buffer to write into: one supplied for reuse, whatever it holds, or a new one. */
    method FindBuffer() returns (b: Buffer)
      requires freeBuffers.Valid() && Usable(freeBuffers.Contents()) && singleBufferByteSize > 0
      modifies freeBuffers
      ensures freeBuffers.Valid() && freeBuffers.values == old(freeBuffers.values) && Usable(freeBuffers.Contents())
              && |b.data| > 0
      ensures if old(freeBuffers.Contents()) == [] then b == Buffer(Repeat(0, singleBufferByteSize), 0)
              else old(freeBuffers.Contents()) == [b] + freeBuffers.Contents()
    {
      hide Queue.Contents;
      b := Buffer(Repeat(0, singleBufferByteSize), 0);
      if freeBuffers.Count() > 0 {
        ghost var all := freeBuffers.Contents();
        b := freeBuffers.Pop();
        assert b == all[0];
        assert forall i | 0 <= i < |freeBuffers.Contents()| :: freeBuffers.Contents()[i] == all[i + 1];
      }
    }

    method ProduceNextBuffer() returns (ghost b: Buffer)
      requires Separate() && buffers.Valid() && freeBuffers.Valid() && Usable(freeBuffers.Contents())
               && singleBufferByteSize > 0
      modifies this`currentBitIndex, buffers, buffers.values, freeBuffers
      ensures Separate() && buffers.Valid() && freeBuffers.Valid() && Usable(freeBuffers.Contents())
              && currentBitIndex == 0
      ensures |b.data| > 0 && buffers.Contents() == old(buffers.Contents()) + [b]
      ensures if old(freeBuffers.Contents()) == [] then b == Buffer(Repeat(0, singleBufferByteSize), 0)
              else old(freeBuffers.Contents()) == [b] + freeBuffers.Contents()
      ensures buffers.values == old(buffers.values) || fresh(buffers.values)
      ensures freeBuffers.values == old(freeBuffers.values)
    {
      hide Queue.Contents, Usable;
      currentBitIndex := 0;
      var result := FindBuffer();
      buffers.Push(result);
      b := result;
    }

    /** A full buffer is left, and counted. */
    method EnsureBuffer()
      requires Valid()
      modifies this`currentBitIndex, this`bytesStored, buffers, buffers.values, freeBuffers
      ensures Ready() && (buffers.values == old(buffers.values) || fresh(buffers.values))
              && freeBuffers.values == old(freeBuffers.values)
      ensures currentBitIndex == old(currentBitIndex) || currentBitIndex == 0
    {
      hide Queue.Contents, ToBits, Stored.Bits;
      var current := buffers.PeekTailAt(0);
      if currentBitIndex / 8 >= |current.data| {
        ghost var before, all := View(), buffers.Contents();
        bytesStored := bytesStored + |current.data|;
        ghost var b := ProduceNextBuffer();
        FilledBits(before, b);
        assert View() == Stored(before.full + [before.current], b, 0);
      }
    }

    /** The current buffer's data is replaced; its bits in use are now followed by the given ones. */
    method Advance(data: seq<byte>, step: nat, ghost bits: seq<bit>)
      requires Ready()
      requires var s := View(); var s' := s.(current := s.current.(data := data), bitIndex := s.bitIndex + step);
               s'.Valid() && s'.Bits() == s.Bits() + bits
      modifies this, buffers, buffers.values, freeBuffers
      ensures Ready() && written == old(written) + bits && consumed == old(consumed)
      ensures buffers.values == old(buffers.values) || fresh(buffers.values)
      ensures freeBuffers.values == old(freeBuffers.values)
      ensures currentBitIndex == old(currentBitIndex) + step || currentBitIndex == 0
    {
      hide Queue.Contents, ToBits, Stored.Bits, ZeroAbove;
      ghost var before := View();
      var buffer := buffers.PeekTailAt(0);
      buffers.ReplaceTail(buffer.(data := data));
      currentBitIndex := currentBitIndex + step;
      written := written + bits;
      assert View() == before.(current := before.current.(data := data), bitIndex := before.bitIndex + step);
      RegroupBits(ToBits(consumed), before.Bits(), bits);
      EnsureBuffer();
    }

    method WriteBit(b: bit)
      requires Ready()
      modifies this, buffers, buffers.values, freeBuffers
      ensures Ready() && written == old(written) + [b] && consumed == old(consumed)
      ensures buffers.values == old(buffers.values) || fresh(buffers.values)
      ensures freeBuffers.values == old(freeBuffers.values)
    {
      hide Queue.Contents, ToBits, Stored.Bits, WithBit, ZeroAbove;
      EnsureBuffer();
      var data := buffers.PeekTailAt(0).data;
      WrittenBits(View(), b);
      var byte := WithBit(data, currentBitIndex, b);
      Advance(data[currentBitIndex / 8 := byte], 1, [b]);
    }

    /** Where in a byte the next bit goes is where the bits received end. */
    lemma PlaceOfNext()
      requires Ready()
      ensures InByte(currentBitIndex) == InByte(|written|)
    {
      hide InByte, ZeroAbove, Queue.Contents;
      var before := |consumed| + |AllData(View().full)|;
      assert |ToBits(consumed)| == 8 * |consumed| && |View().Bits()| == 8 * |AllData(View().full)| + currentBitIndex;
      SamePlace(before, currentBitIndex);
    }

    method WriteByte(value: byte)
      requires Ready() && InByte(currentBitIndex) == 0
      modifies this, buffers, buffers.values, freeBuffers
      ensures Ready() && written == old(written) + ToBits([value]) && consumed == old(consumed)
      ensures buffers.values == old(buffers.values) || fresh(buffers.values)
      ensures freeBuffers.values == old(freeBuffers.values)
      ensures InByte(currentBitIndex) == 0
    {
      hide Queue.Contents, ToBits, Stored.Bits, ZeroAbove;
      EnsureBuffer();
      var data := buffers.PeekTailAt(0).data;
      WrittenByte(View(), value);
      PlaceOf(currentBitIndex);
      Places(ByteIndex(currentBitIndex) + 1, 0);
      Advance(data[currentBitIndex / 8 := value], 8, ToBits([value]));
    }

    /** How many bytes are waiting to be handed out, one of them perhaps in part. */
    function BytesStored(): (n: int)
      requires Valid()
      reads this, buffers, buffers.values, freeBuffers, freeBuffers.values
      ensures n == |AllData(View().full)| + BytesFor(View().bitIndex)
    {
      bytesStored + (currentBitIndex + 7) / 8
    }

    /** The oldest full buffer; one of length zero if there is none. */
    method ConsumeFullBuffer() returns (b: Buffer)
      requires Ready()
      modifies this`bytesStored, this`consumed, buffers
      ensures Ready() && b.length == |b.data| && consumed == old(consumed) + b.data
      ensures |b.data| > 0 <==> |old(View()).full| > 0
      ensures View() == old(View()).(full := if |b.data| > 0 then old(View()).full[1..] else [])
      ensures buffers.values == old(buffers.values)
    {
      hide Queue.Contents, ToBits, Stored.Bits, ZeroAbove;
      if buffers.Count() < 2 {
        b := Buffer([], 0);
        assert consumed + [] == consumed;
      } else {
        ghost var before, all := View(), buffers.Contents();
        OldestBits(before);
        var slot := buffers.Pop();
        assert buffers.Contents() == all[1..] && slot == all[0];
        assert View() == before.(full := before.full[1..]);
        b := slot.(length := |slot.data|);
        bytesStored := bytesStored - b.length;
        ToBitsJoin(consumed, b.data);
        RegroupBits(ToBits(consumed), ToBits(b.data), View().Bits());
        consumed := consumed + b.data;
      }
    }

    /** The oldest buffer with anything in it, even if it is not full; its last byte may be padded with zeros. */
    method ConsumeNonemptyBuffer() returns (b: Buffer)
      requires Ready()
      modifies this, buffers, buffers.values, freeBuffers
      ensures Ready() && b.length <= |b.data| && consumed == old(consumed) + b.data[..b.length]
      ensures old(View()).full != [] ==>
                written == old(written) && b.length == |b.data| && View().full == old(View()).full[1..]
      ensures old(View()).full == [] ==>
                && b.length == BytesFor(old(currentBitIndex)) && ToBits(consumed) == written && currentBitIndex == 0
                && View().full == []
                && written == old(written) + Repeat(0, 8 * b.length - old(currentBitIndex))
                && 8 * b.length - old(currentBitIndex) < 8
      ensures buffers.values == old(buffers.values) || fresh(buffers.values)
      ensures freeBuffers.values == old(freeBuffers.values)
    {
      hide Queue.Contents, ToBits, ZeroAbove, Stored.Bits, Stored.Valid;
      var full := ConsumeFullBuffer();
      if full.length > 0 {
        b := full;
      } else {
        assert consumed == old(consumed);
        LastBits(View());
        if currentBitIndex == 0 {
          b := Buffer([], 0);
          NothingStored(View(), consumed, written);
        } else {
          b := ConsumeCurrentBuffer();
        }
      }
    }

    /** The current buffer, when there is no full one: another takes its place. */
    method ConsumeCurrentBuffer() returns (b: Buffer)
      requires Ready() && View().full == []
      modifies this, buffers, buffers.values, freeBuffers
      ensures Ready() && b.length <= |b.data| && consumed == old(consumed) + b.data[..b.length]
      ensures b.length == BytesFor(old(currentBitIndex)) && ToBits(consumed) == written && currentBitIndex == 0
              && View().full == []
      ensures 0 <= 8 * b.length - old(currentBitIndex) < 8
      ensures written == old(written) + Repeat(0, 8 * b.length - old(currentBitIndex))
      ensures buffers.values == old(buffers.values) || fresh(buffers.values)
      ensures freeBuffers.values == old(freeBuffers.values)
    {
      hide Queue.Contents, ToBits, ZeroAbove, Stored.Bits, Stored.Valid, Usable, AllData;
      ghost var before, all := View(), buffers.Contents();
      var bitIndex := currentBitIndex;
      ghost var next := ProduceNextBuffer();
      var slot := buffers.Pop();
      assert slot == (all + [next])[0] && buffers.Contents() == (all + [next])[1..];
      assert all == [before.current] && slot == before.current && buffers.Contents() == [next];
      b := slot.(length := (bitIndex + 7) / 8);
      PaddedBytes(consumed, before);
      consumed := consumed + b.data[..b.length];
      written := written + Repeat(0, 8 * b.length - bitIndex);
      assert View() == Stored([], next, 0) && AllData([]) == [] by {
        EmptyData();
      }
      NothingLeft(View());
      assert ToBits(consumed) + [] == ToBits(consumed);
    }

    /** All the bytes stored. */
    method ConsumeAllBuffers() returns (bytes: seq<byte>)
      requires Ready()
      modifies this, buffers, buffers.values, freeBuffers
      ensures Ready() && consumed == old(consumed) + bytes && |bytes| == old(BytesStored())
      ensures ToBits(consumed) == written
              && exists padding: nat | padding < 8 :: written == old(written) + Repeat(0, padding)
    {
      hide Queue.Contents, ToBits, ZeroAbove;
      var length := BytesStored();
      bytes := [];
      var more := true;
      while more
        invariant Ready() && consumed == old(consumed) + bytes && written == old(written)
        invariant |bytes| + BytesStored() == length && (!more ==> View().full == [])
        invariant buffers.values == old(buffers.values) || fresh(buffers.values)
        invariant freeBuffers.values == old(freeBuffers.values)
        decreases |View().full|, more
      {
        OldestCounts(View());
        var full := ConsumeFullBuffer();
        bytes := bytes + full.data;
        more := full.length > 0;
      }
      var last := ConsumeNonemptyBuffer();
      bytes := bytes + last.data[..last.length];
    }

    method SupplyBuffer(b: Buffer)
      requires Ready() && |b.data| > 0
      modifies freeBuffers, freeBuffers.values
      ensures Ready() && written == old(written) && consumed == old(consumed) && View() == old(View())
      ensures buffers.values == old(buffers.values)
      ensures freeBuffers.values == old(freeBuffers.values) || fresh(freeBuffers.values)
    {
      hide Queue.Contents, ToBits, ZeroAbove;
      freeBuffers.Push(b);
    }
  }

  lemma OldestCounts(s: Stored)
    requires s.Valid()
    ensures s.full != [] ==> |AllData(s.full)| == |s.full[0].data| + |AllData(s.full[1..])|
  {
  }

  lemma NothingStored(s: Stored, consumed: seq<byte>, written: seq<bit>)
    requires s.Valid() && s.full == [] && s.bitIndex == 0 && ToBits(consumed) + s.Bits() == written
    ensures ToBits(consumed) == written && written + Repeat(0, 0) == written && consumed + [] == consumed
  {
    NothingLeft(s);
    assert ToBits(consumed) + [] == ToBits(consumed);
  }

  lemma EmptyData()
    ensures Usable([]) && AllData([]) == []
  {
  }

  lemma NothingLeft(s: Stored)
    requires |s.current.data| > 0 && s.full == [] && s.bitIndex == 0
    ensures s.Valid() && s.Bits() == []
  {
  }

  /** The bytes of the current buffer complete those handed out before. */
  lemma PaddedBytes(consumed: seq<byte>, s: Stored)
    requires s.Valid() && s.full == []
    ensures var m := BytesFor(s.bitIndex);
            && m <= |s.current.data| && s.bitIndex <= 8 * m < s.bitIndex + 8
            && ToBits(consumed + s.current.data[..m]) == (ToBits(consumed) + s.Bits()) + Repeat(0, 8 * m - s.bitIndex)
  {
    hide ToBits, ZeroAbove, Stored.Bits;
    var m := BytesFor(s.bitIndex);
    LastBits(s);
    ToBitsJoin(consumed, s.current.data[..m]);
    Padding(ToBits(consumed), s.Bits(), 8 * m - s.bitIndex);
  }

  lemma Padding(consumed: seq<bit>, bits: seq<bit>, padding: nat)
    ensures consumed + (bits + Repeat(0, padding)) == (consumed + bits) + Repeat(0, padding)
    ensures consumed + [] == consumed
  {
  }
}
