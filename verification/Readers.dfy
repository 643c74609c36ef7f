/** The bit and byte reader over a queue of buffers (reader.c), and the way of bits from a writer to a reader. */
module Readers {
  import opened Common
  import opened Bits
  import Bitwise
  import opened Queues
  import opened Writers

  function Meaningful(b: Buffer): seq<byte>
    requires b.length <= |b.data|
  {
    b.data[..b.length]
  }

  predicate Filled(buffers: seq<Buffer>) {
    forall i | 0 <= i < |buffers| :: 0 < buffers[i].length <= |buffers[i].data|
  }

  function AllBytes(buffers: seq<Buffer>): seq<byte>
    requires Filled(buffers)
  {
    if buffers == [] then [] else Meaningful(buffers[0]) + AllBytes(buffers[1..])
  }

  lemma {:induction false} AllBytesJoin(a: seq<Buffer>, b: seq<Buffer>)
    requires Filled(a) && Filled(b)
    ensures Filled(a + b) && AllBytes(a + b) == AllBytes(a) + AllBytes(b)
    decreases |a|
  {
    hide Meaningful, AllBytes, Filled;
    FilledJoin(a, b);
    FirstBytes(a);
    FirstBytes(a + b);
    if a == [] {
      assert a + b == b;
    } else {
      AllBytesJoin(a[1..], b);
      assert (a + b)[1..] == a[1..] + b && (a + b)[0] == a[0];
    }
  }

  lemma FilledJoin(a: seq<Buffer>, b: seq<Buffer>)
    requires Filled(a) && Filled(b)
    ensures Filled(a + b)
  {
  }

  lemma FirstBytes(a: seq<Buffer>)
    requires Filled(a)
    ensures if a == [] then AllBytes(a) == [] else
              && Filled(a[1..]) && a[0].length <= |a[0].data|
              && AllBytes(a) == Meaningful(a[0]) + AllBytes(a[1..])
  {
  }

  /** What a reader has still to read: the rest of one buffer, and later ones. */
  datatype Pending = Pending(current: Buffer, bitPointer: nat, later: seq<Buffer>) {
    /** Only past its end can the pointer be outside of the current buffer. */
    predicate Valid() {
      && current.length <= |current.data| && Filled(later)
      && (InByte(bitPointer) > 0 ==> bitPointer < 8 * current.length)
    }

    function Bits(): seq<bit>
      requires Valid()
    {
      (if bitPointer < 8 * current.length then ToBits(Meaningful(current))[bitPointer..] else [])
        + ToBits(AllBytes(later))
    }
  }

  /** At the end of a buffer the next one follows. */
  lemma NextBits(p: Pending)
    requires p.Valid() && p.bitPointer >= 8 * p.current.length
    ensures p.later == [] ==> p.Bits() == []
    ensures p.later != [] ==> var n := Pending(p.later[0], 0, p.later[1..]); n.Valid() && n.Bits() == p.Bits()
  {
    assert ToBits([]) == [];
    hide ToBits;
    if p.later != [] {
      ToBitsJoin(Meaningful(p.later[0]), AllBytes(p.later[1..]));
      assert ToBits(Meaningful(p.later[0]))[0..] == ToBits(Meaningful(p.later[0]));
    }
  }

  lemma FirstBit(p: Pending)
    requires p.Valid() && p.bitPointer < 8 * p.current.length
    ensures ByteIndex(p.bitPointer) < p.current.length && p.(bitPointer := p.bitPointer + 1).Valid()
    ensures p.Bits() == [Bitwise.BitOf(p.current.data[ByteIndex(p.bitPointer)], InByte(p.bitPointer))]
            + p.(bitPointer := p.bitPointer + 1).Bits()
  {
    hide ToBits, ByteIndex, InByte, Bitwise.BitOf;
    var bits, i := ToBits(Meaningful(p.current)), p.bitPointer;
    BitAt(Meaningful(p.current), i);
    NextPlaceInside(i, p.current.length);
    assert bits[i..] == [bits[i]] + bits[i + 1..];
    if i + 1 == 8 * p.current.length {
      assert bits[i + 1..] == [];
    }
  }

  lemma NextPlaceInside(i: nat, length: nat)
    requires i < 8 * length
    ensures InByte(i + 1) > 0 ==> i + 1 < 8 * length
  {
  }

  lemma WholeByteInside(i: nat, length: nat)
    requires i < 8 * length && InByte(i) == 0
    ensures i + 8 <= 8 * length
  {
  }

  lemma FirstByte(p: Pending)
    requires p.Valid() && p.bitPointer < 8 * p.current.length && InByte(p.bitPointer) == 0
    ensures ByteIndex(p.bitPointer) < p.current.length && InByte(p.bitPointer + 8) == 0
            && p.(bitPointer := p.bitPointer + 8).Valid()
    ensures p.Bits() == ToBits([p.current.data[ByteIndex(p.bitPointer)]]) + p.(bitPointer := p.bitPointer + 8).Bits()
  {
    hide ToBits, ByteIndex, InByte, Bitwise.BitOf;
    PlaceOf(p.bitPointer);
    var k, data := ByteIndex(p.bitPointer), Meaningful(p.current);
    Places(k + 1, 0);
    ToBitsJoin([data[k]], data[k + 1..]);
    assert data[k..] == [data[k]] + data[k + 1..];
    DropBytes(data, k);
    DropBytes(data, k + 1);
    if p.bitPointer + 8 == 8 * p.current.length {
      assert data[k + 1..] == [];
    }
    assert ToBits([data[k]]) + ToBits(data[k + 1..]) == ToBits(data[k..]);
  }

  /** Past the end of a buffer the pointer may move on. */
  lemma PastEnd(p: Pending)
    requires p.Valid() && p.bitPointer >= 8 * p.current.length
    ensures InByte(p.bitPointer) == 0 && InByte(p.bitPointer + 8) == 0
    ensures p.(bitPointer := p.bitPointer + 8).Valid() && p.(bitPointer := p.bitPointer + 8).Bits() == p.Bits()
  {
    hide ToBits, AllBytes;
    PlaceOf(p.bitPointer);
    Places(ByteIndex(p.bitPointer) + 1, 0);
  }

  lemma DropBytes(data: seq<byte>, k: nat)
    requires k <= |data|
    ensures ToBits(data[k..]) == ToBits(data)[8 * k..]
  {
    ToBitsJoin(data[..k], data[k..]);
    assert data[..k] + data[k..] == data;
  }

  lemma StillFilled(p: Pending, b: Buffer)
    requires p.Valid() && 0 < b.length <= |b.data|
    ensures Filled(p.later) && Filled([b])
  {
  }

  lemma MoreBits(p: Pending, b: Buffer)
    requires p.Valid() && 0 < b.length <= |b.data|
    ensures p.(later := p.later + [b]).Valid() && |AllBytes(p.later + [b])| == |AllBytes(p.later)| + b.length
    ensures p.(later := p.later + [b]).Bits() == p.Bits() + ToBits(Meaningful(b))
  {
    hide ToBits;
    AllBytesJoin(p.later, [b]);
    assert AllBytes([b]) == Meaningful(b) + [] == Meaningful(b);
    ToBitsJoin(AllBytes(p.later), Meaningful(b));
  }

  // ---------------------------------------------------------------- the object

  class Reader {
    // buffers read completely, the current one, and those to come
    const buffers: Queue<Buffer>
    var currentBuffer: Buffer
    var exhaustedBuffersCount: nat
    var bitPointer: nat
    // bytes in the current buffer and those to come
    var unconsumedBufferBytesCount: int
    var isAtInitialBuffer: bool
    var underflow: bool

    ghost function View(): Pending
      requires buffers.Valid() && exhaustedBuffersCount <= buffers.Count()
      reads this, buffers, buffers.values
    {
      Pending(currentBuffer, bitPointer, Later(buffers.Contents(), isAtInitialBuffer, exhaustedBuffersCount))
    }

    ghost predicate Valid()
      reads this, buffers, buffers.values
    {
      && buffers.Valid() && Filled(buffers.Contents())
      && (if isAtInitialBuffer then exhaustedBuffersCount == 0 && currentBuffer.length == 0
          else exhaustedBuffersCount < buffers.Count() && buffers.Contents()[exhaustedBuffersCount] == currentBuffer)
      && View().Valid()
      && unconsumedBufferBytesCount == currentBuffer.length + |AllBytes(View().later)|
    }

    /** The bits still to be read. */
    ghost function Remaining(): seq<bit>
      requires Valid()
      reads this, buffers, buffers.values
    {
      View().Bits()
    }

    constructor ()
      ensures Valid() && Remaining() == [] && bitPointer == 0 && currentBuffer.length == 0 && !underflow
              && fresh(buffers) && fresh(buffers.values)
    {
      hide Queue.Contents, ToBits;
      NoBits();
      buffers := new Queue(4);
      currentBuffer := Buffer([], 0);
      exhaustedBuffersCount, bitPointer, unconsumedBufferBytesCount, isAtInitialBuffer, underflow :=
        0, 0, 0, true, false;
    }

    function BitsAvailable(): (n: int)
      requires Valid()
      reads this, buffers, buffers.values
      ensures bitPointer <= 8 * currentBuffer.length ==> n == |Remaining()|
    {
      8 * unconsumedBufferBytesCount - bitPointer
    }

    method PushBuffer(b: Buffer)
      requires Valid() && 0 < b.length <= |b.data|
      modifies this`unconsumedBufferBytesCount, buffers, buffers.values
      ensures Valid() && Remaining() == old(Remaining()) + ToBits(Meaningful(b))
      ensures bitPointer == old(bitPointer) && underflow == old(underflow)
      ensures buffers.values == old(buffers.values) || fresh(buffers.values)
    {
      hide Queue.Contents, ToBits, AllBytes, Later, Pending.Bits, Pending.Valid;
      ghost var before, all := View(), buffers.Contents();
      StillFilled(before, b);
      MoreBits(before, b);
      AllBytesJoin(all, [b]);
      LaterMore(all, b, isAtInitialBuffer, exhaustedBuffersCount);
      buffers.Push(b);
      unconsumedBufferBytesCount := unconsumedBufferBytesCount + b.length;
      assert View() == before.(later := before.later + [b]);
    }

    /** The current buffer is that one or a later one. */
    ghost predicate NotBefore(wasAtInitial: bool, wasExhausted: nat)
      reads this
    {
      exhaustedBuffersCount >= wasExhausted && (isAtInitialBuffer ==> wasAtInitial)
    }

    function HasExhaustedBuffer(): bool
      reads this
    {
      exhaustedBuffersCount > 0
    }

    /** Give back the oldest buffer, which was read completely. */
    method RecoverExhaustedBuffer() returns (b: Buffer)
      requires Valid() && HasExhaustedBuffer()
      modifies this`exhaustedBuffersCount, buffers
      ensures Valid() && Remaining() == old(Remaining()) && exhaustedBuffersCount == old(exhaustedBuffersCount) - 1
      ensures old(buffers.Contents()) == [b] + buffers.Contents() && 0 < b.length <= |b.data|
      ensures buffers.values == old(buffers.values)
    {
      hide Queue.Contents, ToBits;
      ghost var all, count := buffers.Contents(), exhaustedBuffersCount;
      b := buffers.Pop();
      exhaustedBuffersCount := exhaustedBuffersCount - 1;
      assert buffers.Contents() == all[1..] && b == all[0];
      assert all[1..][count..] == all[count + 1..];
    }

    method GetNextBuffer() returns (ok: bool)
      requires Valid() && bitPointer >= 8 * currentBuffer.length
      modifies this
      ensures Valid() && Remaining() == old(Remaining()) && (ok <==> Remaining() != [])
      ensures if ok then bitPointer == 0 && currentBuffer.length > 0 && underflow == old(underflow)
              else underflow && bitPointer == old(bitPointer) && currentBuffer == old(currentBuffer)
      ensures NotBefore(old(isAtInitialBuffer), old(exhaustedBuffersCount))
    {
      hide Queue.Contents, ToBits, AllBytes, Later, Pending.Bits, InByte, ByteIndex;
      NextBits(View());
      LaterNext(buffers.Contents(), isAtInitialBuffer, exhaustedBuffersCount);
      var totalBufferCount := buffers.Count() + if isAtInitialBuffer then 1 else 0;
      if totalBufferCount - 1 == exhaustedBuffersCount {
        underflow := true;
        ok := false;
      } else {
        EnterNextBuffer();
        ok := true;
        FirstBit(View());
      }
    }

    /** The current buffer is exhausted, and there is another. */
    method EnterNextBuffer()
      requires Valid() && bitPointer >= 8 * currentBuffer.length && View().later != []
      modifies this`unconsumedBufferBytesCount, this`exhaustedBuffersCount, this`currentBuffer, this`isAtInitialBuffer,
        this`bitPointer
      ensures Valid() && bitPointer == 0 && currentBuffer.length > 0
      ensures View() == Pending(old(View()).later[0], 0, old(View()).later[1..])
      ensures NotBefore(old(isAtInitialBuffer), old(exhaustedBuffersCount))
    {
      hide Queue.Contents, ToBits, AllBytes, Later, Pending.Bits, InByte, ByteIndex;
      ghost var before := View();
      NextBits(before);
      LaterNext(buffers.Contents(), isAtInitialBuffer, exhaustedBuffersCount);
      unconsumedBufferBytesCount := unconsumedBufferBytesCount - currentBuffer.length;
      exhaustedBuffersCount := exhaustedBuffersCount + if isAtInitialBuffer then 0 else 1;
      currentBuffer := buffers.PeekAt(exhaustedBuffersCount);
      isAtInitialBuffer := false;
      bitPointer := 0;
      assert View() == Pending(before.later[0], 0, before.later[1..]);
    }

    method EnsureBuffer() returns (ok: bool)
      requires Valid()
      modifies this
      ensures Valid() && Remaining() == old(Remaining()) && (ok <==> Remaining() != [])
      ensures ok ==> bitPointer < 8 * currentBuffer.length && underflow == old(underflow)
      ensures !ok ==> underflow && bitPointer == old(bitPointer) && currentBuffer == old(currentBuffer)
      ensures InByte(bitPointer) == 0 <==> old(InByte(bitPointer)) == 0
      ensures NotBefore(old(isAtInitialBuffer), old(exhaustedBuffersCount))
    {
      hide Queue.Contents, ToBits, Pending.Bits;
      ok := true;
      if currentBuffer.length <= bitPointer / 8 {
        ok := GetNextBuffer();
      } else {
        FirstBit(View());
      }
    }

    /** The next bit; past the end it is zero, and the error is set. */
    method ReadBit() returns (b: bit)
      requires Valid()
      modifies this
      ensures Valid()
      ensures if old(Remaining()) == [] then b == 0 && Remaining() == [] && underflow
              else
                && old(Remaining()) == [b] + Remaining() && underflow == old(underflow)
                && bitPointer <= 8 * currentBuffer.length
      ensures NotBefore(old(isAtInitialBuffer), old(exhaustedBuffersCount))
    {
      hide Queue.Contents, ToBits, Pending.Bits, AllBytes, Bitwise.BitOf, Filled, Meaningful, Later, ByteIndex;
      var ok := true;
      if InByte(bitPointer) == 0 {
        ok := EnsureBuffer();
      }
      b := 0;
      if ok {
        FirstBit(View());
        b := Bitwise.BitOf(currentBuffer.data[ByteIndex(bitPointer)], InByte(bitPointer));
        bitPointer := bitPointer + 1;
      }
    }

    method PeekByte() returns (b: byte)
      requires Valid() && InByte(bitPointer) == 0
      modifies this
      ensures Valid() && Remaining() == old(Remaining()) && InByte(bitPointer) == 0
      ensures if Remaining() == [] then b == 0 && underflow
              else
                && underflow == old(underflow) && bitPointer < 8 * currentBuffer.length
                && b == Meaningful(currentBuffer)[ByteIndex(bitPointer)] && ToBits([b]) <= Remaining()
      ensures NotBefore(old(isAtInitialBuffer), old(exhaustedBuffersCount))
    {
      hide Queue.Contents, ToBits, Pending.Bits, AllBytes;
      b := 0;
      var ok := EnsureBuffer();
      if ok {
        FirstByte(View());
        b := currentBuffer.data[bitPointer / 8];
      }
    }

    lemma PendingValid()
      requires Valid()
      ensures View().Valid()
    {
    }

    method ReadByte() returns (b: byte)
      requires Valid() && InByte(bitPointer) == 0
      modifies this
      ensures Valid() && InByte(bitPointer) == 0
      ensures if old(Remaining()) == [] then b == 0 && underflow && Remaining() == []
              else
                && old(Remaining()) == ToBits([b]) + Remaining() && underflow == old(underflow)
                && bitPointer <= 8 * currentBuffer.length
      ensures NotBefore(old(isAtInitialBuffer), old(exhaustedBuffersCount))
    {
      hide Queue.Contents, ToBits, AllBytes, Pending.Bits, InByte, ByteIndex, Pending.Valid, Filled, Meaningful,
        Later;
      b := PeekByte();
      PendingValid();
      if bitPointer < 8 * currentBuffer.length {
        FirstByte(View());
        WholeByteInside(bitPointer, currentBuffer.length);
      } else {
        PastEnd(View());
      }
      bitPointer := bitPointer + 8;
    }

    // -------------------------------------------------------------- snapshots

    function TakeSnapshot(): (s: Snapshot)
      reads this
    {
      Snapshot(if isAtInitialBuffer then -1 else exhaustedBuffersCount, bitPointer)
    }

    /** What the source demands of a snapshot: it was taken of this reader, and no buffer was recovered since. */
    ghost predicate Fits(s: Snapshot)
      requires buffers.Valid()
      reads this, buffers, buffers.values
    {
      && (s.exhaustedBuffersCount < 0 ==> s.exhaustedBuffersCount == -1 && InByte(s.bitPointer) == 0)
      && (s.exhaustedBuffersCount >= 0 ==>
            && !isAtInitialBuffer && s.exhaustedBuffersCount <= exhaustedBuffersCount < buffers.Count()
            && (InByte(s.bitPointer) > 0 ==>
                  s.bitPointer < 8 * buffers.Contents()[s.exhaustedBuffersCount].length))
    }

    /** What was still to be read when the snapshot was taken, and the buffers pushed since. */
    ghost function At(s: Snapshot): Pending
      requires buffers.Valid() && Fits(s)
      reads this, buffers, buffers.values
    {
      var all, k := buffers.Contents(), s.exhaustedBuffersCount;
      if k < 0 then Pending(NO_BUFFER, s.bitPointer, all) else Pending(all[k], s.bitPointer, all[k + 1..])
    }

    lemma SnapshotFits()
      requires Valid()
      ensures Fits(TakeSnapshot()) && At(TakeSnapshot()).Valid() && At(TakeSnapshot()).Bits() == Remaining()
    {
    }

    /** Move back to a snapshot. The buffer it returns to is counted from the wrong end of the queue, and lengths are
        taken from there; so the state is that of the snapshot if and only if `Restorable` holds. */
    method RestoreSnapshot(s: Snapshot)
      requires Valid() && Fits(s)
      modifies this
      ensures Valid() <==>
              Restorable(buffers.Contents(), old(exhaustedBuffersCount), s.exhaustedBuffersCount)
      ensures Valid() ==> View() == old(At(s)) && underflow == old(underflow)
      ensures bitPointer == s.bitPointer
      ensures 0 <= s.exhaustedBuffersCount < old(exhaustedBuffersCount) ==>
                currentBuffer == buffers.Contents()[buffers.Count() - 1 - old(exhaustedBuffersCount)]
    {
      hide Restorable, Queue.Contents, AllBytes, InByte, Lengths, Filled, Later, Pending.Valid;
      RestorableCases(buffers.Contents(), exhaustedBuffersCount, s.exhaustedBuffersCount);
      if exhaustedBuffersCount == s.exhaustedBuffersCount {
        RestoreHere(s);
      } else if s.exhaustedBuffersCount == -1 {
        RestoreToStart(s);
      } else {
        RestoreBack(s);
      }
    }

    /** Still in the buffer of the snapshot. */
    method RestoreHere(s: Snapshot)
      requires Valid() && Fits(s) && exhaustedBuffersCount == s.exhaustedBuffersCount
      modifies this`bitPointer
      ensures Valid() && View() == old(At(s)) && bitPointer == s.bitPointer
    {
      hide Queue.Contents, AllBytes, InByte;
      bitPointer := s.bitPointer;
    }

    /** To the time before the first buffer; the counter of bytes stays as it is. */
    method RestoreToStart(s: Snapshot)
      requires Valid() && Fits(s) && s.exhaustedBuffersCount == -1
      modifies this`bitPointer, this`isAtInitialBuffer, this`currentBuffer, this`exhaustedBuffersCount
      ensures Valid() <==> old(exhaustedBuffersCount) == 0
      ensures buffers.Valid() && exhaustedBuffersCount <= buffers.Count() && View() == old(At(s))
      ensures bitPointer == s.bitPointer
    {
      hide Queue.Contents, AllBytes, InByte, Lengths;
      SnapshotBytes(buffers.Contents(), isAtInitialBuffer, exhaustedBuffersCount, -1);
      bitPointer := s.bitPointer;
      isAtInitialBuffer := true;
      currentBuffer := NO_BUFFER;
      exhaustedBuffersCount := 0;
    }

    lemma SnapshotValid(s: Snapshot)
      requires Valid() && Fits(s)
      ensures At(s).Valid() && View().Valid()
    {
    }

    /** To a buffer that was read completely since. */
    method RestoreBack(s: Snapshot)
      requires Valid() && Fits(s) && 0 <= s.exhaustedBuffersCount < exhaustedBuffersCount
      modifies this`bitPointer, this`currentBuffer, this`exhaustedBuffersCount, this`unconsumedBufferBytesCount
      ensures var all, e, k := buffers.Contents(), old(exhaustedBuffersCount), s.exhaustedBuffersCount;
              && (Valid() <==>
                  all[|all| - 1 - e] == all[k] && Lengths(all, |all| - e, |all| - k) == Lengths(all, k, e))
              && currentBuffer == all[|all| - 1 - e]
      ensures Valid() ==> View() == old(At(s))
      ensures bitPointer == s.bitPointer
    {
      hide Queue.Contents, AllBytes, InByte, Lengths, Filled, Pending.Valid, Later;
      LaterIs(buffers.Contents(), exhaustedBuffersCount);
      LaterIs(buffers.Contents(), s.exhaustedBuffersCount);
      ghost var all, e, k := buffers.Contents(), exhaustedBuffersCount, s.exhaustedBuffersCount;
      SnapshotBytes(all, false, e, k);
      SnapshotValid(s);
      bitPointer := s.bitPointer;
      currentBuffer := buffers.PeekTailAt(exhaustedBuffersCount);
      CountBack(s.exhaustedBuffersCount);
      exhaustedBuffersCount := s.exhaustedBuffersCount;
    }

    method CountBack(k: nat)
      requires buffers.Valid() && k <= exhaustedBuffersCount < buffers.Count()
      modifies this`unconsumedBufferBytesCount
      ensures var all, e := buffers.Contents(), exhaustedBuffersCount;
              unconsumedBufferBytesCount == old(unconsumedBufferBytesCount) + Lengths(all, |all| - e, |all| - k)
    {
      hide Queue.Contents, Lengths;
      ghost var all := buffers.Contents();
      NoLengths(all, |all| - k);
      var i := k;
      while i < exhaustedBuffersCount
        invariant k <= i <= exhaustedBuffersCount
        invariant unconsumedBufferBytesCount == old(unconsumedBufferBytesCount) + Lengths(all, |all| - i, |all| - k)
      {
        LengthsFront(all, |all| - i - 1, |all| - k);
        unconsumedBufferBytesCount := unconsumedBufferBytesCount + buffers.PeekTailAt(i).length;
        i := i + 1;
      }
    }
  }

  const NO_BUFFER := Buffer([], 0)

  /** A place to return to; a count of -1 stands for the time before the first buffer. */
  datatype Snapshot = Snapshot(exhaustedBuffersCount: int, bitPointer: nat)

  /** The bytes in the buffers from `i` up to `j`. */
  function Lengths(all: seq<Buffer>, i: nat, j: nat): nat
    requires i <= j <= |all|
    decreases j
  {
    if i == j then 0 else Lengths(all, i, j - 1) + all[j - 1].length
  }

  lemma {:induction false} LengthsFront(all: seq<Buffer>, i: nat, j: nat)
    requires i < j <= |all|
    ensures Lengths(all, i, j) == all[i].length + Lengths(all, i + 1, j)
    decreases j
  {
    if i + 1 < j {
      LengthsFront(all, i, j - 1);
    }
  }

  /** Bytes from buffer `k` on are those of the buffers up to `e` and those from `e` on. */
  lemma {:induction false} BytesFrom(all: seq<Buffer>, k: nat, e: nat)
    requires Filled(all) && k <= e <= |all|
    ensures Filled(all[k..]) && Filled(all[e..])
    ensures |AllBytes(all[k..])| == Lengths(all, k, e) + |AllBytes(all[e..])|
    ensures k < e ==> Lengths(all, k, e) > 0
    decreases e - k
  {
    hide AllBytes;
    if k < e {
      BytesFrom(all, k + 1, e);
      LengthsFront(all, k, e);
      FirstBytes(all[k..]);
      assert all[k..][1..] == all[k + 1..];
    }
  }

  lemma NoLengths(all: seq<Buffer>, i: nat)
    requires i <= |all|
    ensures Lengths(all, i, i) == 0
  {
  }

  lemma RestorableCases(all: seq<Buffer>, exhausted: nat, k: int)
    requires -1 <= k <= exhausted && (exhausted == 0 || exhausted < |all|)
    ensures k == exhausted ==> Restorable(all, exhausted, k)
    ensures k == -1 ==> (Restorable(all, exhausted, k) <==> exhausted == 0)
    ensures 0 <= k < exhausted ==>
              (Restorable(all, exhausted, k) <==>
               all[|all| - 1 - exhausted] == all[k]
               && Lengths(all, |all| - exhausted, |all| - k) == Lengths(all, k, exhausted))
  {
  }

  /** What the counter of bytes should be at a snapshot, and what it is now. */
  lemma SnapshotBytes(all: seq<Buffer>, isAtInitial: bool, e: nat, k: int)
    requires Filled(all) && -1 <= k <= e && (if isAtInitial then e == 0 && k == -1 else e < |all|)
    ensures !isAtInitial ==>
              && Filled(all[e + 1..]) && Filled(all[if k < 0 then 0 else k..])
              && |AllBytes(all[if k < 0 then 0 else k..])| ==
                 Lengths(all, if k < 0 then 0 else k, e) + all[e].length + |AllBytes(all[e + 1..])|
              && (e > 0 && k < e ==> Lengths(all, if k < 0 then 0 else k, e) > 0)
              && (e == 0 ==> Lengths(all, 0, 0) == 0)
    ensures 0 <= k ==>
              Filled(all[k + 1..]) && |AllBytes(all[k..])| == all[k].length + |AllBytes(all[k + 1..])|
    ensures all[0..] == all
  {
    hide AllBytes;
    if !isAtInitial {
      BytesFrom(all, if k < 0 then 0 else k, e);
      BytesFromNext(all, e);
      if k >= 0 {
        BytesFromNext(all, k);
      }
    }
  }

  lemma BytesFromNext(all: seq<Buffer>, k: nat)
    requires Filled(all) && k < |all|
    ensures Filled(all[k..]) && Filled(all[k + 1..])
    ensures |AllBytes(all[k..])| == all[k].length + |AllBytes(all[k + 1..])|
  {
    hide AllBytes;
    BytesFrom(all, k, k);
    FirstBytes(all[k..]);
    assert all[k..][1..] == all[k + 1..];
  }

  /** When `exhausted` buffers are read completely, whether a snapshot taken after `k` of them can be restored. */
  predicate Restorable(all: seq<Buffer>, exhausted: nat, k: int)
    requires -1 <= k <= exhausted && (exhausted == 0 || exhausted < |all|)
  {
    if k == exhausted then true
    else if k == -1 then exhausted == 0
    else
      && all[|all| - 1 - exhausted] == all[k]
      && Lengths(all, |all| - exhausted, |all| - k) == Lengths(all, k, exhausted)
  }

  /** The buffers after the current one. */
  function Later(all: seq<Buffer>, isAtInitial: bool, exhausted: nat): seq<Buffer>
    requires exhausted <= |all|
  {
    if isAtInitial then all else if exhausted < |all| then all[exhausted + 1..] else []
  }

  lemma LaterIs(all: seq<Buffer>, exhausted: nat)
    requires exhausted < |all|
    ensures Later(all, false, exhausted) == all[exhausted + 1..]
  {
  }

  lemma LaterMore(all: seq<Buffer>, b: Buffer, isAtInitial: bool, exhausted: nat)
    requires if isAtInitial then exhausted == 0 else exhausted < |all|
    ensures Later(all + [b], isAtInitial, exhausted) == Later(all, isAtInitial, exhausted) + [b]
  {
  }

  lemma LaterNext(all: seq<Buffer>, isAtInitial: bool, exhausted: nat)
    requires Filled(all) && if isAtInitial then exhausted == 0 else exhausted < |all|
    ensures var later, next := Later(all, isAtInitial, exhausted), if isAtInitial then 0 else exhausted + 1;
            && (later == [] <==> |all| == next)
            && (later != [] ==>
                && next < |all| && later[0] == all[next] && Later(all, false, next) == later[1..]
                && Filled(later) && |AllBytes(later)| == all[next].length + |AllBytes(later[1..])|)
  {
  }

  /** With one buffer a snapshot can always be restored, and with more if the current one is that of the snapshot. */
  lemma OneBufferRestores(all: seq<Buffer>, exhausted: nat, k: int)
    requires -1 <= k <= exhausted && (exhausted == 0 || exhausted < |all|)
    ensures |all| <= 1 || k == exhausted ==> Restorable(all, exhausted, k)
  {
  }

  /** Buffers of one length, of which as many follow the current one as were exhausted before the snapshot, hide that
      the count starts from the wrong end. */
  lemma {:induction false} EvenBuffersRestore(all: seq<Buffer>, exhausted: nat, k: nat, length: nat)
    requires k <= exhausted && |all| == exhausted + k + 1
    requires forall i | 0 <= i < |all| :: all[i].length == length
    ensures Restorable(all, exhausted, k)
  {
    hide Lengths;
    EvenLengths(all, k + 1, exhausted + 1, length);
    EvenLengths(all, k, exhausted, length);
  }

  lemma {:induction false} EvenLengths(all: seq<Buffer>, i: nat, j: nat, length: nat)
    requires i <= j <= |all| && forall k | 0 <= k < |all| :: all[k].length == length
    ensures Lengths(all, i, j) == (j - i) * length
    decreases j
  {
    if i < j {
      EvenLengths(all, i, j - 1, length);
      assert (j - i) * length == (j - 1 - i) * length + length;
    }
  }

  /** Of three buffers, the second stands in for the first. */
  lemma SnapshotLost()
    ensures var all := [Buffer([0x61, 0x62], 2), Buffer([0x63, 0x64], 2), Buffer([0x65, 0x66], 2)];
            && Filled(all) && !Restorable(all, 1, 0) && all[|all| - 1 - 1] == all[1] != all[0]
            && Restorable(all[..2], 1, 0)
  {
    var all := [Buffer([0x61, 0x62], 2), Buffer([0x63, 0x64], 2), Buffer([0x65, 0x66], 2)];
    EvenBuffersRestore(all[..2], 1, 0, 2);
  }

  /** Some bytes are read, as for a token, and then given up. */
  method GiveUp(reader: Reader, count: nat) returns (exhausted: nat)
    requires reader.Valid() && InByte(reader.bitPointer) == 0
    modifies reader
    ensures var k := if old(reader.isAtInitialBuffer) then -1 else old(reader.exhaustedBuffersCount);
            && k <= exhausted && (exhausted == 0 || exhausted < reader.buffers.Count())
            && (reader.Valid() <==> Restorable(reader.buffers.Contents(), exhausted, k))
    ensures reader.Valid() ==> reader.Remaining() == old(reader.Remaining())
    ensures reader.buffers.Count() <= 1 ==> reader.Valid()
  {
    hide Queue.Contents, AllBytes, InByte, Filled, Pending.Valid, Pending.Bits, Restorable, ToBits;
    var snapshot := reader.TakeSnapshot();
    reader.SnapshotFits();
    ghost var at := reader.At(snapshot);
    var i := 0;
    while i < count
      invariant reader.Valid() && InByte(reader.bitPointer) == 0 && reader.Fits(snapshot) && reader.At(snapshot) == at
    {
      var b := reader.ReadByte();
      i := i + 1;
    }
    exhausted := reader.exhaustedBuffersCount;
    OneBufferRestores(reader.buffers.Contents(), exhausted, snapshot.exhaustedBuffersCount);
    reader.RestoreSnapshot(snapshot);
  }

  // ---------------------------------------------------------------- from a writer to a reader

  /** What a producer and a consumer can do: write a bit or a byte, hand a full buffer over, supply a buffer to the
      writer, read a bit or a byte if there is one, and give a buffer that was read back to the writer. */
  datatype Action = Put(b: bit) | PutByte(value: byte) | HandOver | Supply(buffer: Buffer) | Get | GetByte | Recover {
    /** The bits written. */
    function Bits(): seq<bit> {
      match this
      case Put(b) => [b]
      case PutByte(value) => ToBits([value])
      case _ => []
    }
  }

  function BitsPut(actions: seq<Action>): seq<bit> {
    if actions == [] then [] else BitsPut(actions[..|actions| - 1]) + actions[|actions| - 1].Bits()
  }

  /** Whether an action is possible after some bits: a byte is written at a byte boundary only. */
  predicate ActionOk(action: Action, written: seq<bit>) {
    && (action.Supply? ==> |action.buffer.data| > 0)
    && (action.PutByte? ==> InByte(|written|) == 0)
  }

  predicate ActionsOk(actions: seq<Action>) {
    forall i | 0 <= i < |actions| :: ActionOk(actions[i], BitsPut(actions[..i]))
  }

  ghost predicate Apart(writer: Writer, reader: Reader)
    reads writer, writer.buffers, writer.freeBuffers, reader, reader.buffers
  {
    && reader.buffers != writer.buffers && reader.buffers != writer.freeBuffers
    && reader.buffers.values != writer.buffers.values && reader.buffers.values != writer.freeBuffers.values
  }

  ghost predicate CanRead(reader: Reader)
    reads reader, reader.buffers, reader.buffers.values
  {
    reader.Valid() && !reader.underflow && reader.bitPointer <= 8 * reader.currentBuffer.length
  }

  /** The bits read and those still to be read are exactly those of the bytes handed out by the writer. */
  ghost predicate Connected(writer: Writer, reader: Reader, read: seq<bit>)
    reads writer, writer.buffers, writer.buffers.values, writer.freeBuffers, writer.freeBuffers.values
    reads reader, reader.buffers, reader.buffers.values
  {
    writer.Ready() && CanRead(reader) && Apart(writer, reader) && read + reader.Remaining() == ToBits(writer.consumed)
  }

  /** Hand a buffer over. */
  method Give(writer: Writer, reader: Reader, b: Buffer, ghost before: seq<byte>, ghost read: seq<bit>)
    requires writer.Ready() && CanRead(reader) && Apart(writer, reader) && b.length <= |b.data|
    requires read + reader.Remaining() == ToBits(before) && writer.consumed == before + Meaningful(b)
    modifies reader`unconsumedBufferBytesCount, reader.buffers, reader.buffers.values
    ensures Connected(writer, reader, read)
    ensures reader.buffers.values == old(reader.buffers.values) || fresh(reader.buffers.values)
  {
    hide ToBits, Reader.Remaining, Queue.Contents, Reader.View, Stored.Bits, Stored.Valid;
    ToBitsJoin(before, Meaningful(b));
    ghost var rest := reader.Remaining();
    if b.length > 0 {
      reader.PushBuffer(b);
      Regrouped(read, rest, ToBits(Meaningful(b)));
    } else {
      assert before + Meaningful(b) == before;
    }
  }

  lemma Regrouped(a: seq<bit>, b: seq<bit>, c: seq<bit>)
    ensures a + (b + c) == (a + b) + c && (a + c) + b == a + (c + b)
  {
  }

  method PerformHandOver(writer: Writer, reader: Reader, ghost read: seq<bit>)
    requires Connected(writer, reader, read)
    modifies writer`bytesStored, writer`consumed, writer.buffers, reader`unconsumedBufferBytesCount, reader.buffers,
      reader.buffers.values
    ensures Connected(writer, reader, read) && writer.written == old(writer.written)
    ensures writer.buffers.values == old(writer.buffers.values)
    ensures reader.buffers.values == old(reader.buffers.values) || fresh(reader.buffers.values)
  {
    hide ToBits, Queue.Contents, Reader.View, Writer.View, Stored.Bits, Stored.Valid, Pending.Bits, Pending.Valid;
    ghost var before := writer.consumed;
    var b := writer.ConsumeFullBuffer();
    assert Meaningful(b) == b.data;
    Give(writer, reader, b, before, read);
  }

  /** The next bit, if the counter says there is one. */
  method PerformGet(writer: Writer, reader: Reader, read: seq<bit>) returns (more: seq<bit>)
    requires Connected(writer, reader, read)
    modifies reader
    ensures Connected(writer, reader, more)
  {
    hide ToBits, Queue.Contents, Reader.View, Reader.Valid, Writer.Ready, Pending.Bits, Pending.Valid;
    more := read;
    if reader.BitsAvailable() > 0 {
      ghost var rest := reader.Remaining();
      var b := reader.ReadBit();
      assert rest == [b] + reader.Remaining();
      Regrouped(read, reader.Remaining(), [b]);
      more := read + [b];
    }
  }

  /** The next byte, if the reader is at a byte boundary and the counter says there is one. */
  method PerformGetByte(writer: Writer, reader: Reader, read: seq<bit>) returns (more: seq<bit>)
    requires Connected(writer, reader, read)
    modifies reader
    ensures Connected(writer, reader, more)
  {
    hide ToBits, Queue.Contents, Reader.View, Reader.Valid, Writer.Ready, Pending.Bits, Pending.Valid;
    more := read;
    if InByte(reader.bitPointer) == 0 && reader.BitsAvailable() > 0 {
      ghost var rest := reader.Remaining();
      var b := reader.ReadByte();
      assert rest == ToBits([b]) + reader.Remaining();
      Regrouped(read, ToBits([b]), reader.Remaining());
      more := read + ToBits([b]);
    }
  }

  /** A buffer that was read completely, if there is one, goes back to the writer. */
  method PerformRecover(writer: Writer, reader: Reader, ghost read: seq<bit>)
    requires Connected(writer, reader, read)
    modifies reader`exhaustedBuffersCount, reader.buffers, writer.freeBuffers, writer.freeBuffers.values
    ensures Connected(writer, reader, read)
    ensures writer.freeBuffers.values == old(writer.freeBuffers.values) || fresh(writer.freeBuffers.values)
    ensures reader.buffers.values == old(reader.buffers.values)
  {
    hide ToBits, Queue.Contents, Reader.View, Writer.View, Stored.Bits, Stored.Valid, Pending.Bits, Pending.Valid;
    if reader.HasExhaustedBuffer() {
      var b := reader.RecoverExhaustedBuffer();
      writer.SupplyBuffer(b);
    }
  }

  method Perform(writer: Writer, reader: Reader, action: Action, read: seq<bit>) returns (more: seq<bit>)
    requires Connected(writer, reader, read) && ActionOk(action, writer.written)
    modifies writer, writer.buffers, writer.buffers.values, writer.freeBuffers, writer.freeBuffers.values
    modifies reader, reader.buffers, reader.buffers.values
    ensures Connected(writer, reader, more)
    ensures writer.written == old(writer.written) + action.Bits()
    ensures writer.buffers.values == old(writer.buffers.values) || fresh(writer.buffers.values)
    ensures writer.freeBuffers.values == old(writer.freeBuffers.values) || fresh(writer.freeBuffers.values)
    ensures reader.buffers.values == old(reader.buffers.values) || fresh(reader.buffers.values)
  {
    hide ToBits, Queue.Contents, Reader.View, Writer.View, Stored.Bits, Stored.Valid, Pending.Bits, Pending.Valid,
      CanRead;
    assert writer.written + [] == writer.written;
    more := read;
    match action {
      case Put(b) =>
        writer.WriteBit(b);
      case PutByte(value) =>
        writer.PlaceOfNext();
        writer.WriteByte(value);
      case Supply(buffer) =>
        writer.SupplyBuffer(buffer);
      case HandOver =>
        PerformHandOver(writer, reader, read);
      case Get =>
        more := PerformGet(writer, reader, read);
      case GetByte =>
        more := PerformGetByte(writer, reader, read);
      case Recover =>
        PerformRecover(writer, reader, read);
    }
  }

  /** The oldest buffer with anything in it; `more` says that it was a full one. */
  method HandOverOne(writer: Writer, reader: Reader, ghost read: seq<bit>) returns (more: bool, ghost padding: nat)
    requires Connected(writer, reader, read)
    modifies writer, writer.buffers, writer.buffers.values, writer.freeBuffers
    modifies reader`unconsumedBufferBytesCount, reader.buffers, reader.buffers.values
    ensures Connected(writer, reader, read) && padding < 8
    ensures more ==> writer.written == old(writer.written) && |writer.View().full| < old(|writer.View().full|)
    ensures !more ==> read + reader.Remaining() == writer.written == old(writer.written) + Repeat(0, padding)
    ensures writer.buffers.values == old(writer.buffers.values) || fresh(writer.buffers.values)
    ensures writer.freeBuffers.values == old(writer.freeBuffers.values)
    ensures reader.buffers.values == old(reader.buffers.values) || fresh(reader.buffers.values)
  {
    hide ToBits, Queue.Contents, Reader.View, Stored.Bits, Stored.Valid, Pending.Bits, Pending.Valid, Reader.Valid;
    ghost var before, bitIndex := writer.consumed, writer.currentBitIndex;
    more := writer.buffers.Count() > 1;
    var b := writer.ConsumeNonemptyBuffer();
    padding := if more then 0 else 8 * b.length - bitIndex;
    Give(writer, reader, b, before, read);
  }

  /** After the last write: everything that is left is handed over. */
  method HandOverRest(writer: Writer, reader: Reader, ghost read: seq<bit>) returns (ghost padding: nat)
    requires Connected(writer, reader, read)
    modifies writer, writer.buffers, writer.buffers.values, writer.freeBuffers, writer.freeBuffers.values
    modifies reader, reader.buffers, reader.buffers.values
    ensures Connected(writer, reader, read) && padding < 8
    ensures read + reader.Remaining() == writer.written == old(writer.written) + Repeat(0, padding)
  {
    hide ToBits, Queue.Contents, Reader.View, Writer.View, Stored.Bits, Stored.Valid, Pending.Bits, Pending.Valid,
      Reader.Valid, Apart;
    var more := true;
    padding := 0;
    while more
      invariant Connected(writer, reader, read) && padding < 8
      invariant more ==> writer.written == old(writer.written)
      invariant !more ==> read + reader.Remaining() == writer.written == old(writer.written) + Repeat(0, padding)
      invariant writer.buffers.values == old(writer.buffers.values) || fresh(writer.buffers.values)
      invariant writer.freeBuffers.values == old(writer.freeBuffers.values)
      invariant reader.buffers.values == old(reader.buffers.values) || fresh(reader.buffers.values)
      decreases more, |writer.View().full|
    {
      more, padding := HandOverOne(writer, reader, read);
    }
  }

  lemma NoBits()
    ensures ToBits([]) == []
  {
  }

  lemma PutMore(actions: seq<Action>, i: nat)
    requires i < |actions|
    ensures BitsPut(actions[..i + 1]) == BitsPut(actions[..i]) + actions[i].Bits()
  {
    assert actions[..i + 1][..i] == actions[..i];
  }

  /** Any interleaving of actions; the bits it reads. */
  method PerformAll(writer: Writer, reader: Reader, actions: seq<Action>) returns (read: seq<bit>)
    requires Connected(writer, reader, []) && writer.written == [] && ActionsOk(actions)
    modifies writer, writer.buffers, writer.buffers.values, writer.freeBuffers, writer.freeBuffers.values
    modifies reader, reader.buffers, reader.buffers.values
    ensures Connected(writer, reader, read) && writer.written == BitsPut(actions)
    ensures writer.buffers.values == old(writer.buffers.values) || fresh(writer.buffers.values)
    ensures writer.freeBuffers.values == old(writer.freeBuffers.values) || fresh(writer.freeBuffers.values)
    ensures reader.buffers.values == old(reader.buffers.values) || fresh(reader.buffers.values)
  {
    hide Connected, BitsPut;
    NoActions();
    read := [];
    var i := 0;
    assert actions[..0] == [];
    while i < |actions|
      invariant 0 <= i <= |actions| && Connected(writer, reader, read) && writer.written == BitsPut(actions[..i])
      invariant writer.buffers.values == old(writer.buffers.values) || fresh(writer.buffers.values)
      invariant writer.freeBuffers.values == old(writer.freeBuffers.values) || fresh(writer.freeBuffers.values)
      invariant reader.buffers.values == old(reader.buffers.values) || fresh(reader.buffers.values)
    {
      PutMore(actions, i);
      read := Perform(writer, reader, actions[i], read);
      i := i + 1;
    }
    assert actions[..|actions|] == actions;
  }

  lemma NoActions()
    ensures BitsPut([]) == []
  {
  }

  method ReadBits(reader: Reader, count: nat) returns (bits: seq<bit>)
    requires reader.Valid() && count == |reader.Remaining()|
    modifies reader
    ensures reader.Valid() && bits == old(reader.Remaining()) && reader.Remaining() == []
            && reader.underflow == old(reader.underflow)
  {
    hide Reader.Valid, Reader.Remaining;
    bits := [];
    while |bits| < count
      invariant reader.Valid() && |bits| <= count && bits + reader.Remaining() == old(reader.Remaining())
      invariant reader.underflow == old(reader.underflow)
    {
      ghost var before := reader.Remaining();
      var b := reader.ReadBit();
      assert before != [] && before == [b] + reader.Remaining();
      bits := bits + [b];
    }
  }

  /** For any interleaving of bit and byte writes, hand-overs, reads, recoveries and supplies, and any buffer size,
      the bits read are those written, in order, and fewer than eight zeros behind them, without underflow. */
  method WriteThenRead(actions: seq<Action>, bufferSize: nat, queueShift: nat)
    returns (bits: seq<bit>, ghost padding: nat, underflow: bool)
    requires bufferSize > 0 && ActionsOk(actions)
    ensures bits == BitsPut(actions) + Repeat(0, padding) && padding < 8 && !underflow
  {
    hide ToBits, Queue.Contents, Reader.View, Reader.Valid, Stored.Bits, Stored.Valid, Pending.Bits, Pending.Valid,
      Writer.Ready;
    var writer := new Writer(bufferSize, queueShift);
    var reader := new Reader();
    NoBits();
    var read := PerformAll(writer, reader, actions);
    padding := HandOverRest(writer, reader, read);
    var count := reader.BitsAvailable();
    var rest := ReadBits(reader, count);
    bits := read + rest;
    underflow := reader.underflow;
  }
}
