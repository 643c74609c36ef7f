/** The streaming string compressor (string_compressor.c). */
module StringCompressor {
  import opened Common
  import opened Frequencies
  import Intervals
  import CodeStream
  import opened ArithmeticEncoder
  import opened UintCodec
  import opened RingBuffers
  import opened MatchSearch
  import opened ByteMatcher
  import opened StringCodec

  lemma MatchedByte(window: Ring, source: Ring, history: seq<byte>, offset: nat, count: nat, length: nat, k: nat)
    requires Remembers(window, history) && source.Valid() && count <= |source.content|
    requires k < length <= offset <= |window.content| && length <= count
    requires Matches(window, source, offset, count, length)
    ensures offset <= |history| && history[|history| - offset + k] == Last(source, count)[k]
  {
    hide Ring.Back, Remembers;
    BackOf(window, history, offset);
    BackOf(window, history, offset - k);
    assert MatchesAt(window, source, offset, count, k);
  }

  /** What a found match means: the pending bytes repeat a slice of the history. */
  lemma MatchIsReference(window: Ring, source: Ring, history: seq<byte>, offset: nat, count: nat, length: nat)
    requires Remembers(window, history) && source.Valid() && count <= |source.content|
    requires length <= offset <= |window.content| && length <= count && 0 < offset
    requires Matches(window, source, offset, count, length)
    ensures offset <= |history| && Repeated(history, offset, length) == history + Last(source, count)[..length]
  {
    hide Last, Remembers, Repeated, Matches;
    BackOf(window, history, offset);
    var from, pending := |history| - offset, Last(source, count);
    ReferenceIsSlice(history, offset, length);
    forall k | 0 <= k < length ensures history[from..from + length][k] == pending[k] {
      MatchedByte(window, source, history, offset, count, length, k);
    }
    assert history[from..from + length] == pending[..length];
  }

  lemma LastDrop(ring: Ring, count: nat, dropped: nat)
    requires ring.Valid() && dropped <= count <= |ring.content|
    ensures Last(ring, count)[dropped..] == Last(ring, count - dropped)
  {
    hide Ring.Back;
    forall k | 0 <= k < count - dropped ensures Last(ring, count)[dropped..][k] == Last(ring, count - dropped)[k] {
    }
  }

  lemma MoveBoundary(history: seq<byte>, pending: seq<byte>, n: nat)
    requires n <= |pending|
    ensures history + pending == (history + pending[..n]) + pending[n..]
  {
  }

  // ---------------------------------------------------------------- what is coded

  /** The item that stands for the first pending bytes: a reference if the match is long enough. */
  function ItemFor(history: seq<byte>, pending: seq<byte>): (item: Item)
    requires |history| >= WINDOW && 0 < |pending| < MATCH_LIMIT
    ensures ItemOk(item) && !item.EndOfString? && ItemLength(item) <= |pending|
  {
    if |pending| < HASH_BYTES then Literal(pending[0])
    else
      var m := MatchFor(history, pending);
      if m.length >= MIN_BACKREFERENCE_LENGTH then Reference(m.offset, m.length) else Literal(pending[0])
  }

  /** How many bytes it stands for. */
  function ItemLength(item: Item): (n: nat)
    ensures ItemOk(item) && !item.EndOfString? ==> n > 0
  {
    match item
    case Literal(_) => 1
    case Reference(_, length) => length
    case EndOfString => 0
  }

  /** The items for all the pending bytes, one after the other. */
  function FlushItems(history: seq<byte>, pending: seq<byte>): (items: seq<Item>)
    requires |history| >= WINDOW && |pending| < MATCH_LIMIT
    decreases |pending|
  {
    if pending == [] then []
    else
      var item := ItemFor(history, pending);
      [item] + FlushItems(Apply(history, item), pending[ItemLength(item)..])
  }

  /** The items coded when a byte comes: one when the buffer is full. */
  function WriteItems(history: seq<byte>, pending: seq<byte>): (items: seq<Item>)
    requires |history| >= WINDOW && 0 < |pending| < MATCH_LIMIT
  {
    if |pending| == MATCH_LIMIT - 1 then [ItemFor(history, pending)] else []
  }

  /** What has gone through the matcher and what is pending after a byte, which is pending already. */
  function AfterWrite(history: seq<byte>, pending: seq<byte>): (r: (seq<byte>, seq<byte>))
    requires |history| >= WINDOW && 0 < |pending| < MATCH_LIMIT
    ensures |r.0| >= WINDOW && |r.1| < MATCH_LIMIT - 1
  {
    if |pending| == MATCH_LIMIT - 1 then
      var item := ItemFor(history, pending);
      (Apply(history, item), pending[ItemLength(item)..])
    else (history, pending)
  }

  function AfterWrites(history: seq<byte>, pending: seq<byte>, bytes: seq<byte>): (r: (seq<byte>, seq<byte>))
    requires |history| >= WINDOW && |pending| < MATCH_LIMIT - 1
    ensures |r.0| >= WINDOW && |r.1| < MATCH_LIMIT - 1
    decreases |bytes|
  {
    if bytes == [] then (history, pending)
    else
      var (h, p) := AfterWrite(history, pending + [bytes[0]]);
      AfterWrites(h, p, bytes[1..])
  }

  /** The items coded while some bytes are written. */
  function WrittenItems(history: seq<byte>, pending: seq<byte>, bytes: seq<byte>): (items: seq<Item>)
    requires |history| >= WINDOW && |pending| < MATCH_LIMIT - 1
    decreases |bytes|
  {
    if bytes == [] then []
    else
      var (h, p) := AfterWrite(history, pending + [bytes[0]]);
      WriteItems(history, pending + [bytes[0]]) + WrittenItems(h, p, bytes[1..])
  }

  lemma {:induction false} WrittenMore(history: seq<byte>, pending: seq<byte>, u: seq<byte>, v: seq<byte>)
    requires |history| >= WINDOW && |pending| < MATCH_LIMIT - 1
    ensures var (h, p) := AfterWrites(history, pending, u);
            && AfterWrites(history, pending, u + v) == AfterWrites(h, p, v)
            && WrittenItems(history, pending, u + v) == WrittenItems(history, pending, u) + WrittenItems(h, p, v)
    decreases |u|
  {
    hide AfterWrite, WriteItems;
    if u == [] {
      assert u + v == v;
    } else {
      assert (u + v)[0] == u[0] && (u + v)[1..] == u[1..] + v;
      var (h, p) := AfterWrite(history, pending + [u[0]]);
      WrittenMore(h, p, u[1..], v);
    }
  }

  lemma WrittenOne(history: seq<byte>, pending: seq<byte>, b: byte)
    requires |history| >= WINDOW && |pending| < MATCH_LIMIT - 1
    ensures AfterWrites(history, pending, [b]) == AfterWrite(history, pending + [b])
    ensures WrittenItems(history, pending, [b]) == WriteItems(history, pending + [b])
  {
    hide AfterWrite, WriteItems;
    assert [b][1..] == [];
  }

  /** The history and the bytes it has in common with what was pending say what is left. */
  lemma WriteLeaves(history: seq<byte>, pending: seq<byte>, items: seq<Item>, after: seq<byte>, left: seq<byte>)
    requires |history| >= WINDOW && 0 < |pending| < MATCH_LIMIT && items == WriteItems(history, pending)
    requires StringOk(items) && after == ApplyAll(history, items) && after + left == history + pending
    ensures (after, left) == AfterWrite(history, pending)
  {
    hide ItemFor, Repeated;
    if |pending| == MATCH_LIMIT - 1 {
      var item := ItemFor(history, pending);
      assert items[1..] == [];
      AppliedLength(history, item);
      assert left == (history + pending)[|after|..] == pending[ItemLength(item)..];
    } else {
      assert left == (history + pending)[|after|..] == pending;
    }
  }

  /** What the buffer holds of the text still to be coded. */
  function Ahead(text: seq<byte>): (pending: seq<byte>)
    ensures |pending| < MATCH_LIMIT && (text != [] ==> pending != [])
  {
    if |text| < MATCH_LIMIT then text else text[..MATCH_LIMIT - 1]
  }

  /** The items that a text is coded as after a history, however it is written. */
  function ItemsOfText(history: seq<byte>, text: seq<byte>): (items: seq<Item>)
    requires |history| >= WINDOW
    decreases |text|
  {
    if text == [] then []
    else
      var item := ItemFor(history, Ahead(text));
      [item] + ItemsOfText(Apply(history, item), text[ItemLength(item)..])
  }

  lemma {:induction false} FlushIsText(history: seq<byte>, pending: seq<byte>)
    requires |history| >= WINDOW && |pending| < MATCH_LIMIT
    ensures FlushItems(history, pending) == ItemsOfText(history, pending)
    decreases |pending|
  {
    hide ItemFor, Repeated;
    if pending != [] {
      var item := ItemFor(history, pending);
      FlushIsText(Apply(history, item), pending[ItemLength(item)..]);
    }
  }

  /** Writing a byte codes the items that the whole text says, as far as the buffer was full. */
  lemma WriteIsText(history: seq<byte>, pending: seq<byte>, rest: seq<byte>, items: seq<Item>, after: seq<byte>,
                    left: seq<byte>)
    requires |history| >= WINDOW && 0 < |pending| < MATCH_LIMIT && items == WriteItems(history, pending)
    requires StringOk(items) && after == ApplyAll(history, items) && after + left == history + pending
    ensures |after| >= WINDOW
    ensures ItemsOfText(history, pending + rest) == items + ItemsOfText(after, left + rest)
  {
    hide ItemFor, Repeated;
    var text := pending + rest;
    WriteLeaves(history, pending, items, after, left);
    if |pending| == MATCH_LIMIT - 1 {
      assert Ahead(text) == pending;
      assert text[ItemLength(ItemFor(history, pending))..] == left + rest;
    }
  }

  /** A reference is coded if and only if one of the places that the index offers, up to twenty or to the first run of
      2048 bytes, gives a run of five bytes; it has the longest such run and the first place of that length. */
  lemma ItemForExactly(history: seq<byte>, pending: seq<byte>) returns (places: seq<nat>, taken: nat)
    requires |history| >= WINDOW && HASH_BYTES <= |pending| < MATCH_LIMIT
    ensures Chain(history, HeadOf(history, Hash(pending[..HASH_BYTES])), places)
    ensures TriedAll(history, pending, places, 20)
    ensures var item := ItemFor(history, pending);
            && (item.Reference? <==> exists i | 0 <= i < |places| :: RunOf(history, pending, places[i]) >= 5)
            && (item.Reference? ==>
                  && taken < |places| && item.offset == BackFrom(history, places[taken])
                  && item.length == RunOf(history, pending, places[taken])
                  && (forall i | 0 <= i < |places| :: RunOf(history, pending, places[i]) <= item.length)
                  && (forall i | 0 <= i < taken :: RunOf(history, pending, places[i]) < item.length))
            && (item.Literal? ==> item.b == pending[0])
  {
    hide Chain, TriedAll, RunOf, HeadOf, Hash, SearchFrom;
    var first := HeadOf(history, Hash(pending[..HASH_BYTES]));
    places, taken := SearchTakesLongest(history, pending, first, MAX_HYPOTHESIS, Match(0, 0));
  }

  /** A repetition of at least five bytes, of which the first four were the last to be entered under their hash and
      still lie in the window, is coded as a reference at least as long. */
  lemma RepetitionCoded(history: seq<byte>, pending: seq<byte>, i: nat, n: nat)
    requires |history| >= WINDOW && 5 <= n <= |pending| < MATCH_LIMIT && i + n <= |history| && |history| - i < 65536
    requires history[i..i + n] == pending[..n] && LatestGram(history, i, Hash(pending[..4]))
    ensures var item := ItemFor(history, pending); item.Reference? && item.length >= n
  {
    hide LatestGram, Hash, MatchFor, RunAt;
    RunIsLongest(history, pending, |history| - i, n);
    assert history[|history| - (|history| - i)..][..n] == history[i..i + n];
    RepetitionFound(history, pending, i);
  }

  class StringCompressor {
    // bytes waiting to be searched for in the window
    const inputBuffer: RingBuffer
    const bsm: ByteStreamMatcher
    const offsetTables: UintFreqTables
    const lengthTables: UintFreqTables
    const encoder: Encoder
    var mainTable: Table
    var bytesInBuffer: nat
    // every byte that has gone through the matcher, after a window of zeros
    ghost var history: seq<byte>

    ghost function Repr(): (r: set<object>)
      ensures {this, offsetTables, lengthTables} <= r
    {
      {this, inputBuffer, inputBuffer.content, offsetTables, lengthTables,
       bsm, bsm.content, bsm.content.content, bsm.chain, bsm.chain.heads, bsm.chain.prevs}
    }

    ghost function Tables(): StringTables
      reads this, offsetTables, lengthTables
    {
      StringTables(mainTable, offsetTables.View(), lengthTables.View())
    }

    ghost predicate Separate() {
      && inputBuffer != bsm.content && inputBuffer.content != bsm.content.content && offsetTables != lengthTables
    }

    ghost predicate Valid()
      reads Repr()
    {
      && Separate() && bsm.Valid() && inputBuffer.Valid() && inputBuffer.content.Length == MATCH_LIMIT
      && bytesInBuffer < MATCH_LIMIT
      && Tables().Valid()
      && WINDOW <= |history| && history == bsm.history
    }

    /** The bytes written but not yet coded. */
    ghost function Pending(): seq<byte>
      requires Valid()
      reads Repr()
    {
      Last(inputBuffer.View(), bytesInBuffer)
    }

    constructor (encoder: Encoder)
      ensures Valid() && fresh(Repr()) && this.encoder == encoder
      ensures bytesInBuffer == 0 && history == Repeat(0, WINDOW) && Tables() == InitialTables()
    {
      hide ByteStreamMatcher.Valid, IsAdaptive, RingBuffer.View, Remembers, HashChain.Valid, InitialTables,
        TablesFor, Ones, MsbIndex, EmptyRing;
      inputBuffer := new RingBuffer(MATCH_LIMIT);
      bsm := new ByteStreamMatcher();
      InitialTablesAre();
      offsetTables := new UintFreqTables(WINDOW);
      lengthTables := new UintFreqTables(MATCH_LIMIT);
      mainTable := Ones(EOF_SYMBOL + 1);
      this.encoder := encoder;
      bytesInBuffer := 0;
      history := Repeat(0, WINDOW);
      new;
      EmptyRemembers(WINDOW);
    }

    lemma Facts()
      requires Valid()
      ensures Tables().Valid() && WINDOW <= |history| && bytesInBuffer < MATCH_LIMIT && inputBuffer.Valid()
      ensures |Pending()| == bytesInBuffer
    {
    }

    method WriteBackreference(offset: nat, length: nat)
      requires Valid() && encoder.Valid() && ItemOk(Reference(offset, length))
      modifies this`mainTable, offsetTables, lengthTables, encoder
      ensures encoder.Valid() && encoder.sent ==
              old(encoder.sent) + ItemEvents(old(Tables()), Reference(offset, length))
      ensures Tables() == AfterItem(old(Tables()), Reference(offset, length))
    {
      hide ByteStreamMatcher.Valid, Run, IsAdaptive, RingBuffer.View, Bump, UintEvents, AfterUint, Remembers;
      ReferencesFit(Tables(), Reference(offset, length));
      Intervals.AdaptiveEncodable(mainTable, BACKREFERENCE_SYMBOL);
      encoder.Write(mainTable, BACKREFERENCE_SYMBOL);
      mainTable := Bump(mainTable, BACKREFERENCE_SYMBOL);
      WriteUint(offsetTables, encoder, offset - length);
      WriteUint(lengthTables, encoder, length);
    }

    /** The events of an item; the buffers are not touched. */
    method WriteItem(item: Item)
      requires Valid() && encoder.Valid() && ItemOk(item)
      modifies this`mainTable, offsetTables, lengthTables, encoder
      ensures Valid() && encoder.Valid() && Pending() == old(Pending())
      ensures encoder.sent == old(encoder.sent) + ItemEvents(old(Tables()), item)
      ensures Tables() == AfterItem(old(Tables()), item)
    {
      hide ByteStreamMatcher.Valid, Run, IsAdaptive, RingBuffer.View, Bump, UintEvents, AfterUint, Remembers, Last,
        HashChain.Valid;
      if item.Reference? {
        WriteBackreference(item.offset, item.length);
      } else {
        var symbol := if item.Literal? then item.b else EOF_SYMBOL;
        Intervals.AdaptiveEncodable(mainTable, symbol);
        encoder.Write(mainTable, symbol);
        mainTable := Bump(mainTable, symbol);
      }
    }

    /** Hand `length` pending bytes to the matcher. */
    method PushToMatcher(bufferStart: nat, length: nat)
      requires Valid() && length <= bytesInBuffer && bufferStart < MATCH_LIMIT
      requires Distance(inputBuffer.View(), bufferStart) == bytesInBuffer
      modifies bsm.Repr(), this`history
      ensures Valid() && Pending() == old(Pending()) && Tables() == old(Tables())
      ensures history == old(history) + Pending()[..length]
    {
      hide ByteStreamMatcher.Valid, IsAdaptive, RingBuffer.View, Ring.Back, Ring.Push, Ring.Get, Remembers, Distance,
        HashChain.Valid, Hash, PlaceOf, LastGram, RingBuffer.Valid, Ring.Valid;
      ghost var pending, source := Pending(), inputBuffer.View();
      var i := bufferStart;
      while i < bufferStart + length
        invariant bufferStart <= i <= bufferStart + length
        invariant Valid() && inputBuffer.View() == source && Pending() == pending
        invariant history == old(history) + pending[..i - bufferStart]
      {
        GetIsBack(source, bufferStart, i - bufferStart);
        var b := inputBuffer.Get(i);
        bsm.Push(b);
        history := history + [b];
        i := i + 1;
      }
    }

    method DropPending(length: nat)
      requires Valid() && length <= bytesInBuffer
      modifies this`bytesInBuffer
      ensures Valid() && bytesInBuffer == old(bytesInBuffer) - length && Pending() == old(Pending())[length..]
    {
      hide ByteStreamMatcher.Valid, IsAdaptive, RingBuffer.View, Remembers, HashChain.Valid;
      LastDrop(inputBuffer.View(), bytesInBuffer, length);
      bytesInBuffer := bytesInBuffer - length;
    }

    /** Code the first `length` pending bytes as one item, which stands for them. */
    method CodeItem(item: Item, bufferStart: nat, length: nat)
      requires Valid() && encoder.Valid() && 0 < length <= bytesInBuffer && bufferStart < MATCH_LIMIT
      requires Distance(inputBuffer.View(), bufferStart) == bytesInBuffer
      requires ItemOk(item) && Apply(history, item) == history + Pending()[..length]
      modifies Repr(), encoder
      ensures Valid() && encoder.Valid() && bytesInBuffer == old(bytesInBuffer) - length
      ensures history == Apply(old(history), item)
      ensures history + Pending() == old(history + Pending())
      ensures encoder.sent == old(encoder.sent) + ItemEvents(old(Tables()), item)
      ensures Tables() == AfterItem(old(Tables()), item)
    {
      hide ByteStreamMatcher.Valid, Run, IsAdaptive, RingBuffer.View, Distance, Apply, ItemEvents, AfterItem, Valid,
        Pending;
      Facts();
      ghost var pending := Pending();
      WriteItem(item);
      PushToMatcher(bufferStart, length);
      DropPending(length);
      MoveBoundary(old(history), pending, length);
    }

    /** A backreference if a long enough match is found, else the first pending byte. */
    method Choose(bufferStart: nat) returns (item: Item)
      requires Valid() && 0 < bytesInBuffer && bufferStart < MATCH_LIMIT
      requires Distance(inputBuffer.View(), bufferStart) == bytesInBuffer
      ensures 0 < |Pending()| < MATCH_LIMIT && |history| >= WINDOW && item == ItemFor(history, Pending())
      ensures 0 < ItemLength(item) <= |Pending()|
              && Apply(history, item) == history + Pending()[..ItemLength(item)]
    {
      hide ByteStreamMatcher.Valid, IsAdaptive, RingBuffer.View, Remembers, Matches, Distance, Ring.Back, Ring.Get,
        Repeated, Searched, ByteStreamMatcher.HashAt, CommonRun, MatchFor, Last;
      ghost var source := inputBuffer.View();
      Facts();
      var offset, length := 0, 0;
      if bytesInBuffer >= HASH_BYTES {
        ghost var tried;
        offset, length, tried := bsm.FindMatch(inputBuffer, bufferStart);
        bsm.FoundIs(inputBuffer, bufferStart, tried, Match(offset, length));
      }
      if length >= MIN_BACKREFERENCE_LENGTH {
        bsm.Facts();
        MatchIsReference(bsm.content.View(), source, history, offset, bytesInBuffer, length);
        item := Reference(offset, length);
      } else {
        FirstPending(source, bufferStart);
        item := Literal(inputBuffer.Get(bufferStart));
      }
    }

    /** Code one item for the first pending bytes. */
    method FlushOnce() returns (ghost item: Item)
      requires Valid() && encoder.Valid() && bytesInBuffer > 0
      modifies Repr(), encoder
      ensures Valid() && encoder.Valid() && bytesInBuffer < old(bytesInBuffer)
      ensures 0 < |old(Pending())| < MATCH_LIMIT && |old(history)| >= WINDOW
              && item == ItemFor(old(history), old(Pending()))
      ensures ItemOk(item) && !item.EndOfString? && history == Apply(old(history), item)
      ensures history + Pending() == old(history + Pending())
      ensures encoder.sent == old(encoder.sent) + ItemEvents(old(Tables()), item)
      ensures Tables() == AfterItem(old(Tables()), item)
    {
      hide ByteStreamMatcher.Valid, Run, IsAdaptive, RingBuffer.View, Distance, Apply, ItemEvents, AfterItem, Last;
      Facts();
      var bufferStart := inputBuffer.position - bytesInBuffer;
      if bufferStart < 0 {
        bufferStart := bufferStart + MATCH_LIMIT;
      }
      DistanceValue(inputBuffer.View(), bufferStart);
      var chosen := Choose(bufferStart);
      item := chosen;
      CodeItem(chosen, bufferStart, ItemLength(chosen));
    }

    /** Take a byte; when the buffer is full one item is coded. */
    method Write(b: byte) returns (ghost items: seq<Item>)
      requires Valid() && encoder.Valid() && bytesInBuffer < MATCH_LIMIT - 1
      modifies Repr(), encoder
      ensures Valid() && encoder.Valid() && bytesInBuffer < MATCH_LIMIT - 1
      ensures |old(Pending())| < MATCH_LIMIT - 1 && |old(history)| >= WINDOW
              && items == WriteItems(old(history), old(Pending()) + [b])
      ensures StringOk(items) && history == ApplyAll(old(history), items)
      ensures history + Pending() == old(history + Pending()) + [b]
      ensures encoder.sent == old(encoder.sent) + AllEvents(old(Tables()), items)
      ensures Tables() == AfterAll(old(Tables()), items)
    {
      hide ByteStreamMatcher.Valid, Run, IsAdaptive, RingBuffer.View, Remembers, Apply, ItemEvents, AfterItem,
        Ring.Push;
      PushLast(inputBuffer.View(), b, bytesInBuffer);
      inputBuffer.Push(b);
      bytesInBuffer := bytesInBuffer + 1;
      items := [];
      if bytesInBuffer == MATCH_LIMIT - 1 {
        ghost var item := FlushOnce();
        items := [item];
        OneItem(old(Tables()), old(history), item);
      }
    }

    /** Code everything pending, and the end marker. */
    method Flush() returns (ghost items: seq<Item>)
      requires Valid() && encoder.Valid()
      modifies Repr(), encoder
      ensures Valid() && encoder.Valid() && bytesInBuffer == 0
      ensures |old(Pending())| < MATCH_LIMIT && |old(history)| >= WINDOW
              && items == FlushItems(old(history), old(Pending()))
      ensures StringOk(items) && history == ApplyAll(old(history), items)
      ensures history == old(history + Pending())
      ensures encoder.sent == old(encoder.sent) + AllEvents(old(Tables()), items + [EndOfString])
      ensures Tables() == AfterAll(old(Tables()), items + [EndOfString])
    {
      hide ByteStreamMatcher.Valid, Run, IsAdaptive, RingBuffer.View, Apply, ItemEvents, AfterItem, ApplyAll,
        AllEvents, AfterAll, Valid, FlushItems, ItemFor, Pending;
      items := [];
      Facts();
      NoItems(Tables(), history);
      assert [] + FlushItems(history, Pending()) == FlushItems(history, Pending());
      while bytesInBuffer > 0
        invariant Valid() && encoder.Valid() && StringOk(items)
        invariant history == ApplyAll(old(history), items)
        invariant history + Pending() == old(history + Pending())
        invariant |history| >= WINDOW && |Pending()| < MATCH_LIMIT
        invariant items + FlushItems(history, Pending()) == FlushItems(old(history), old(Pending()))
        invariant encoder.sent == old(encoder.sent) + AllEvents(old(Tables()), items)
        invariant Tables() == AfterAll(old(Tables()), items)
        decreases bytesInBuffer
      {
        ghost var before, pending := history, Pending();
        ghost var item := FlushOnce();
        FlushMore(before, pending, history, Pending(), items);
        AppendItem(old(Tables()), old(history), items, item);
        items := items + [item];
      }
      AppendItem(old(Tables()), old(history), items, EndOfString);
      Facts();
      assert Pending() == [];
      NothingFlushed(history);
      assert items + [] == items;
      WriteItem(EndOfString);
    }
  }

  lemma FirstPending(source: Ring, bufferStart: nat)
    requires source.Valid() && bufferStart < |source.content| && Distance(source, bufferStart) > 0
    ensures Last(source, Distance(source, bufferStart))[..1] == [source.Get(bufferStart)]
  {
    GetIsBack(source, bufferStart, 0);
  }

  lemma NothingFlushed(history: seq<byte>)
    requires |history| >= WINDOW
    ensures FlushItems(history, []) == []
  {
  }

  /** One item more, and the bytes it stands for are no longer pending. */
  lemma FlushMore(history: seq<byte>, pending: seq<byte>, after: seq<byte>, left: seq<byte>, items: seq<Item>)
    requires |history| >= WINDOW && 0 < |pending| < MATCH_LIMIT
    requires after == Apply(history, ItemFor(history, pending)) && after + left == history + pending
    ensures |after| >= WINDOW && |left| < MATCH_LIMIT
    ensures (items + [ItemFor(history, pending)]) + FlushItems(after, left) == items + FlushItems(history, pending)
  {
    hide ItemFor, Repeated;
    var item := ItemFor(history, pending);
    AppliedLength(history, item);
    assert left == (history + pending)[|after|..] == pending[ItemLength(item)..];
  }

  lemma AppliedLength(history: seq<byte>, item: Item)
    requires |history| >= WINDOW && ItemOk(item)
    ensures |Apply(history, item)| == |history| + ItemLength(item)
  {
  }

  lemma NoItems(t: StringTables, history: seq<byte>)
    requires t.Valid() && WINDOW <= |history|
    ensures ApplyAll(history, []) == history && AllEvents(t, []) == [] && AfterAll(t, []) == t
  {
  }

  // ---------------------------------------------------------------- what goes in and what comes out

  /** What matters of a string compressor. */
  datatype StringState = StringState(tables: StringTables, history: seq<byte>, pending: seq<byte>,
                                     sent: seq<CodeStream.Event>) {
    predicate Valid() {
      tables.Valid() && WINDOW <= |history|
    }
  }

  ghost function StateOf(strcomp: StringCompressor): StringState
    requires strcomp.Valid()
    reads strcomp.Repr(), strcomp.encoder
  {
    StringState(strcomp.Tables(), strcomp.history, strcomp.Pending(), strcomp.encoder.sent)
  }

  /** From one state to the other `bytes` were taken in and `items` came out, which are those that the search says. */
  ghost predicate Took(from: StringState, to: StringState, items: seq<Item>, bytes: seq<byte>)
    requires from.Valid()
  {
    && Moved(from, to, items, bytes)
    && |from.pending| < MATCH_LIMIT - 1 && items == WrittenItems(from.history, from.pending, bytes)
    && (to.history, to.pending) == AfterWrites(from.history, from.pending, bytes)
  }

  ghost predicate Moved(from: StringState, to: StringState, items: seq<Item>, bytes: seq<byte>)
    requires from.Valid()
  {
    && StringOk(items) && to.history == ApplyAll(from.history, items)
    && to.tables == AfterAll(from.tables, items) && to.sent == from.sent + AllEvents(from.tables, items)
    && to.history + to.pending == from.history + from.pending + bytes
  }

  lemma TookMore(a: StringState, b: StringState, c: StringState, xs: seq<Item>, ys: seq<Item>, u: seq<byte>,
      v: seq<byte>)
    requires a.Valid() && b.Valid() && Took(a, b, xs, u) && Took(b, c, ys, v)
    ensures Took(a, c, xs + ys, u + v)
  {
    hide ApplyAll, AllEvents, AfterAll, StringTables.Valid, WrittenItems, AfterWrites;
    RunsCompose(a.tables, a.history, xs, ys);
    WrittenMore(a.history, a.pending, u, v);
    assert a.history + a.pending + u + v == a.history + a.pending + (u + v);
    assert a.sent + AllEvents(a.tables, xs) + AllEvents(b.tables, ys) ==
      a.sent + (AllEvents(a.tables, xs) + AllEvents(b.tables, ys));
  }

  lemma TookNothing(a: StringState)
    requires a.Valid() && |a.pending| < MATCH_LIMIT - 1
    ensures Took(a, a, [], [])
  {
    NoItems(a.tables, a.history);
  }

  method TakeByte(strcomp: StringCompressor, b: byte) returns (ghost items: seq<Item>)
    requires strcomp.Valid() && strcomp.encoder.Valid() && strcomp.bytesInBuffer < MATCH_LIMIT - 1
    modifies strcomp.Repr(), strcomp.encoder
    ensures strcomp.Valid() && strcomp.encoder.Valid() && strcomp.bytesInBuffer < MATCH_LIMIT - 1
    ensures old(StateOf(strcomp)).Valid() && Took(old(StateOf(strcomp)), StateOf(strcomp), items, [b])
    ensures |old(strcomp.Pending())| < MATCH_LIMIT - 1
            && items == WriteItems(old(strcomp.history), old(strcomp.Pending()) + [b])
  {
    hide WriteItems, Run, StringCompressor.Valid, ApplyAll, AllEvents, AfterAll, WrittenItems, AfterWrites,
      AfterWrite;
    strcomp.Facts();
    ghost var before := StateOf(strcomp);
    items := strcomp.Write(b);
    WrittenOne(before.history, before.pending, b);
    assert before.history + before.pending + [b] == before.history + (before.pending + [b]);
    WriteLeaves(before.history, before.pending + [b], items, strcomp.history, strcomp.Pending());
  }

  /** One more byte after those taken in since `start`. */
  method TakeOneMore(strcomp: StringCompressor, b: byte, ghost start: StringState, ghost items: seq<Item>,
      ghost taken: seq<byte>)
    returns (ghost more: seq<Item>)
    requires strcomp.Valid() && strcomp.encoder.Valid() && strcomp.bytesInBuffer < MATCH_LIMIT - 1
    requires start.Valid() && Took(start, StateOf(strcomp), items, taken)
    modifies strcomp.Repr(), strcomp.encoder
    ensures strcomp.Valid() && strcomp.encoder.Valid() && strcomp.bytesInBuffer < MATCH_LIMIT - 1
    ensures Took(start, StateOf(strcomp), more, taken + [b])
    ensures |old(strcomp.history)| >= WINDOW && |old(strcomp.Pending())| < MATCH_LIMIT - 1
            && |strcomp.Pending()| < MATCH_LIMIT
    ensures var last := WriteItems(old(strcomp.history), old(strcomp.Pending()) + [b]);
            && more == items + last && StringOk(last) && strcomp.history == ApplyAll(old(strcomp.history), last)
            && strcomp.history + strcomp.Pending() == old(strcomp.history) + (old(strcomp.Pending()) + [b])
  {
    hide WriteItems, Run, StringCompressor.Valid, StringTables.Valid, ApplyAll, AllEvents, AfterAll, WrittenItems,
      AfterWrites;
    strcomp.Facts();
    ghost var before := StateOf(strcomp);
    ghost var last := TakeByte(strcomp, b);
    strcomp.Facts();
    TookMore(start, before, StateOf(strcomp), items, last, taken, [b]);
    more := items + last;
    assert before.history + before.pending + [b] == before.history + (before.pending + [b]);
  }
}
