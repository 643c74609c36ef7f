/** The string decompressor (string_decompressor.c). */
module StringDecompressor {
  import Arithmetic
  import ByteSinks
  import opened Common
  import opened Frequencies
  import ArithmeticDecoder
  import opened UintCodec
  import opened RingBuffers
  import opened MatchSearch
  import opened StringCodec

  /** The source reads at a running index; that index stays `distance` behind the moving position. */
  lemma CopyIndex(position: nat, start: int, i: nat, distance: nat, length: nat)
    requires length > 0 && (start == position - distance || start == position - distance + length)
    ensures ((position + i) % length - distance - start - i) % length == 0
  {
    var q, r := (position + i) / length, (position + i) % length;
    var k := if start == position - distance then -q else -q - 1;
    assert (-q - 1) * length == -q * length - length;
    assert r - distance - start - i == 0 + k * length;
    Arithmetic.ModCongruent(0, k, length);
  }

  lemma NextIndex(position: nat, i: nat, length: nat)
    requires length > 0
    ensures ((position + i) % length + 1) % length == (position + i + 1) % length
  {
    var q := (position + i) / length;
    assert (position + i) % length + 1 == position + i + 1 + (-q) * length;
    Arithmetic.ModCongruent(position + i + 1, -q, length);
  }

  class StringDecompressor {
    const lookback: RingBuffer
    const offsetTables: UintFreqTables
    const lengthTables: UintFreqTables
    const decoder: ArithmeticDecoder.Decoder
    const writer: ByteSinks.ByteSink
    var mainTable: Table

    ghost function Repr(): (r: set<object>)
      ensures {this, lookback, lookback.content, offsetTables, lengthTables} <= r
    {
      {this, lookback, lookback.content, offsetTables, lengthTables}
    }

    ghost function Tables(): StringTables
      reads this, offsetTables, lengthTables
    {
      StringTables(mainTable, offsetTables.View(), lengthTables.View())
    }

    ghost predicate Valid()
      reads Repr()
    {
      && offsetTables != lengthTables && lookback.Valid() && lookback.content.Length == WINDOW
      && Tables().Valid()
    }

    constructor (decoder: ArithmeticDecoder.Decoder, writer: ByteSinks.ByteSink)
      ensures Valid() && fresh(Repr()) && this.decoder == decoder && this.writer == writer
      ensures Tables() == InitialTables() && lookback.View() == EmptyRing(WINDOW)
    {
      hide IsAdaptive, InitialTables, TablesFor, Ones, MsbIndex, EmptyRing, RingBuffer.View;
      InitialTablesAre();
      lookback := new RingBuffer(WINDOW);
      offsetTables := new UintFreqTables(WINDOW);
      lengthTables := new UintFreqTables(MATCH_LIMIT);
      mainTable := Ones(EOF_SYMBOL + 1);
      this.decoder := decoder;
      this.writer := writer;
    }

    /** Copy `length` bytes from `offset + length` back, while pushing them. */
    method MaterializeBackreference(offset: nat, length: nat)
      requires Valid()
      modifies lookback, lookback.content, writer
      ensures Valid() && Tables() == old(Tables())
      ensures var (bytes, after) := CopyBack(old(lookback.View()), offset + length, length);
              lookback.View() == after && writer.bytes == old(writer.bytes) + bytes
    {
      hide IsAdaptive, RingBuffer.View, Ring.Back, Ring.Get, Ring.Push, CopyBack;
      CopyNothing();
      ghost var first, written := lookback.position, [];
      ghost var goal := CopyBack(lookback.View(), offset + length, length);
      var startIndex := lookback.position - (offset + length);
      if startIndex < 0 {
        startIndex := startIndex + WINDOW;
      }
      var i := 0;
      while i < length
        invariant 0 <= i <= length && Valid() && lookback.position == (first + i) % WINDOW
        invariant Tables() == old(Tables()) && writer.bytes == old(writer.bytes) + written
        invariant var (bytes, after) := CopyBack(lookback.View(), offset + length, length - i);
                  goal.0 == written + bytes && goal.1 == after
      {
        CopyIndex(first, startIndex, i, offset + length, WINDOW);
        SameDistance(lookback.View(), startIndex, i, offset + length);
        NextIndex(first, i, WINDOW);
        var b := lookback.Get(startIndex + i);
        CopyStep(lookback.View(), offset + length, length - i, written);
        writer.WriteByte(b);
        lookback.Push(b);
        written := written + [b];
        i := i + 1;
      }
    }

    lemma CopyNothing()
      ensures forall ring: Ring, distance | ring.Valid() :: CopyBack(ring, distance, 0) == ([], ring)
    {
    }

    lemma CopyStep(ring: Ring, distance: nat, count: nat, written: seq<byte>)
      requires ring.Valid() && count > 0
      ensures var b := ring.Back(distance);
              && ring.Push(b).Valid() && ring.Push(b).position == (ring.position + 1) % |ring.content|
              && written + CopyBack(ring, distance, count).0 ==
                 (written + [b]) + CopyBack(ring.Push(b), distance, count - 1).0
              && CopyBack(ring, distance, count).1 == CopyBack(ring.Push(b), distance, count - 1).1
    {
    }

    /** Read one item; false at the end of a string. */
    method ReadNext() returns (more: bool)
      requires Valid() && decoder.State().Valid()
      modifies Repr(), decoder, writer
      ensures Valid() && decoder.State().Valid()
      ensures var r := ReadItem(old(Tables()), old(lookback.View()), old(decoder.State()));
              && more == r.more && Tables() == r.tables && lookback.View() == r.ring && decoder.State() == r.decoder
              && writer.bytes == old(writer.bytes) + r.written
    {
      hide IsAdaptive, RingBuffer.View, ArithmeticDecoder.Read, ReadUint, Bump, CopyBack, Ring.Push;
      ArithmeticDecoder.AdaptiveDecodable(mainTable);
      var s := decoder.ReadSymbol(mainTable);
      mainTable := Bump(mainTable, s);
      if s == EOF_SYMBOL {
        more := false;
      } else if s == BACKREFERENCE_SYMBOL {
        var offset := ReadUintFrom(offsetTables, decoder);
        var length := ReadUintFrom(lengthTables, decoder);
        MaterializeBackreference(offset, length);
        more := true;
      } else {
        writer.WriteByte(s);
        lookback.Push(s);
        more := true;
      }
    }
  }
}
