/** String compression as values: items (bytes, backreferences, end of string), what they stand for,
    the events they are coded as, and reading them back into a ring. */
module StringCodec {
  import opened Common
  import opened Frequencies
  import Intervals
  import opened CodeStream
  import opened ArithmeticDecoder
  import opened UintCodec
  import opened RingBuffers
  import opened MatchSearch

  const MIN_BACKREFERENCE_LENGTH: nat := 5
  const BACKREFERENCE_SYMBOL: nat := 256
  const EOF_SYMBOL: nat := 257

  /** `offset` counts back from the end of the history to the first byte repeated. */
  datatype Item = Literal(b: byte) | Reference(offset: nat, length: nat) | EndOfString

  // ---------------------------------------------------------------- meaning

  /** Append `count` bytes, each a copy of the one `offset` positions back. */
  function Repeated(history: seq<byte>, offset: nat, count: nat): (r: seq<byte>)
    requires 0 < offset <= |history|
    ensures |r| == |history| + count && r[..|history|] == history
    decreases count
  {
    if count == 0 then history
    else Repeated(history + [history[|history| - offset]], offset, count - 1)
  }

  /** A reference that does not reach past what it repeats nor outside the window. */
  predicate ItemOk(item: Item) {
    item.Reference? ==> MIN_BACKREFERENCE_LENGTH <= item.length <= item.offset < WINDOW && item.length < MATCH_LIMIT
  }

  function Apply(history: seq<byte>, item: Item): (r: seq<byte>)
    requires ItemOk(item) && WINDOW <= |history|
    ensures |history| <= |r| && r[..|history|] == history
  {
    match item
    case Literal(b) => history + [b]
    case Reference(offset, length) => Repeated(history, offset, length)
    case EndOfString => history
  }

  /** The bytes an item adds. */
  function Added(history: seq<byte>, item: Item): seq<byte>
    requires ItemOk(item) && WINDOW <= |history|
  {
    Apply(history, item)[|history|..]
  }

  /** A reference no longer than its offset adds a plain slice of the history. */
  lemma {:induction false} ReferenceIsSlice(history: seq<byte>, offset: nat, length: nat)
    requires length <= offset <= |history| && 0 < offset
    ensures var from := |history| - offset;
            Repeated(history, offset, length) == history + history[from..from + length]
    decreases length
  {
    var from := |history| - offset;
    if length > 0 {
      RepeatedLast(history, offset, length - 1);
      ReferenceIsSlice(history, offset, length - 1);
      var shorter := history + history[from..from + length - 1];
      assert shorter[|shorter| - offset] == history[from + length - 1];
      assert history[from..from + length] == history[from..from + length - 1] + [history[from + length - 1]];
    }
  }

  lemma {:induction false} RepeatedLast(history: seq<byte>, offset: nat, count: nat)
    requires 0 < offset <= |history|
    ensures var r := Repeated(history, offset, count);
            Repeated(history, offset, count + 1) == r + [r[|r| - offset]]
    decreases count
  {
    if count > 0 {
      RepeatedLast(history + [history[|history| - offset]], offset, count - 1);
    }
  }

  // ---------------------------------------------------------------- tables and events

  datatype StringTables = StringTables(main: Table, offset: UintTables, length: UintTables) {
    predicate Valid() {
      && |main| == EOF_SYMBOL + 1
      && offset.Valid() && offset.SymbolCount() == 4
      && length.Valid() && length.SymbolCount() == 3
    }
  }

  function InitialTables(): (t: StringTables)
    ensures t.Valid()
  {
    hide MsbIndex, Ones;
    MsbOfPowers();
    StringTables(Ones(EOF_SYMBOL + 1), TablesFor(WINDOW), TablesFor(MATCH_LIMIT))
  }

  lemma InitialTablesAre()
    ensures MsbIndex(WINDOW) == 16 && MsbIndex(MATCH_LIMIT) == 12
    ensures InitialTables() == StringTables(Ones(EOF_SYMBOL + 1), TablesFor(WINDOW), TablesFor(MATCH_LIMIT))
  {
    MsbOfPowers();
  }

  lemma MsbOfPowers()
    ensures MsbIndex(WINDOW) == 16 && MsbIndex(MATCH_LIMIT) == 12
  {
    assert MsbIndex(16) == 4;
    assert MsbIndex(256) == 8;
    assert MsbIndex(4096) == 12;
  }

  /** Offsets and lengths of acceptable references always have a symbol in their tables. */
  lemma ReferencesFit(t: StringTables, item: Item)
    requires t.Valid() && ItemOk(item) && item.Reference?
    ensures t.offset.Fits(item.offset - item.length) && t.length.Fits(item.length)
  {
    assert Pow16(2) == 256;
    assert Pow16(4) == 65536 && Pow16(3) == 4096;
    FitsExactly(t.offset, item.offset - item.length);
    FitsExactly(t.length, item.length);
  }

  function ItemEvents(t: StringTables, item: Item): seq<Event>
    requires t.Valid() && ItemOk(item)
  {
    match item
    case Literal(b) => [Event(t.main, b)]
    case Reference(offset, length) =>
      ReferencesFit(t, item);
      [Event(t.main, BACKREFERENCE_SYMBOL)] + (UintEvents(t.offset, offset - length) + UintEvents(t.length, length))
    case EndOfString => [Event(t.main, EOF_SYMBOL)]
  }

  function AfterItem(t: StringTables, item: Item): (r: StringTables)
    requires t.Valid() && ItemOk(item)
    ensures r.Valid()
  {
    match item
    case Literal(b) => t.(main := Bump(t.main, b))
    case Reference(offset, length) =>
      ReferencesFit(t, item);
      StringTables(Bump(t.main, BACKREFERENCE_SYMBOL), AfterUint(t.offset, offset - length),
        AfterUint(t.length, length))
    case EndOfString => t.(main := Bump(t.main, EOF_SYMBOL))
  }

  // ---------------------------------------------------------------- reading into a ring

  /** Copy `count` bytes from `distance` back, pushing each: reads run ahead of writes by the distance. */
  function CopyBack(ring: Ring, distance: nat, count: nat): (r: (seq<byte>, Ring))
    requires ring.Valid()
    ensures r.1.Valid() && |r.1.content| == |ring.content| && |r.0| == count
    decreases count
  {
    if count == 0 then ([], ring)
    else
      var b := ring.Back(distance);
      assert ring.Push(b).Valid();
      var (rest, last) := CopyBack(ring.Push(b), distance, count - 1);
      ([b] + rest, last)
  }

  /** The outcome of reading one item. */
  datatype ItemRead = ItemRead(more: bool, tables: StringTables, ring: Ring, written: seq<byte>, decoder: DecoderState)

  function ReadItem(t: StringTables, ring: Ring, d: DecoderState): (r: ItemRead)
    requires t.Valid() && ring.Valid() && d.Valid()
    ensures r.tables.Valid() && r.ring.Valid() && |r.ring.content| == |ring.content| && r.decoder.Valid()
    ensures !r.more ==> r.written == []
  {
    var (s, d1) := Read(d, t.main);
    var main := Bump(t.main, s);
    if s == EOF_SYMBOL then
      ItemRead(false, t.(main := main), ring, [], d1)
    else if s == BACKREFERENCE_SYMBOL then
      var (offset, offsetTables, d2) := ReadUint(t.offset, d1);
      var (length, lengthTables, d3) := ReadUint(t.length, d2);
      var (bytes, after) := CopyBack(ring, offset + length, length);
      ItemRead(true, StringTables(main, offsetTables, lengthTables), after, bytes, d3)
    else
      assert ring.Push(s).Valid();
      ItemRead(true, t.(main := main), ring.Push(s), [s], d1)
  }

  /** Copying in a ring that remembers the history repeats the history, across any wrap-around. */
  lemma {:induction false} CopyRemembers(ring: Ring, history: seq<byte>, distance: nat, count: nat)
    requires Remembers(ring, history) && 0 < distance <= |ring.content|
    ensures var (bytes, after) := CopyBack(ring, distance, count);
            && Repeated(history, distance, count) == history + bytes
            && Remembers(after, history + bytes)
    decreases count
  {
    hide Ring.Back, Ring.Push, Remembers;
    if count > 0 {
      assert ring.Valid() && ring.Back(distance) == history[|history| - distance] && distance <= |history| by {
        BackOf(ring, history, distance);
      }
      var b := ring.Back(distance);
      PushRemembers(ring, history, b);
      PushKeepsSize(ring, b);
      CopyRemembers(ring.Push(b), history + [b], distance, count - 1);
      var rest := CopyBack(ring.Push(b), distance, count - 1).0;
      assert history + [b] + rest == history + ([b] + rest);
    } else {
      assert history + [] == history;
    }
  }

  lemma BackOf(ring: Ring, history: seq<byte>, distance: nat)
    requires Remembers(ring, history) && 0 < distance <= |ring.content|
    ensures ring.Valid() && |ring.content| <= |history| && ring.Back(distance) == history[|history| - distance]
  {
    assert RemembersAt(ring, history, distance);
  }

  lemma PushKeepsSize(ring: Ring, b: byte)
    requires ring.Valid()
    ensures ring.Push(b).Valid() && |ring.Push(b).content| == |ring.content|
  {
  }

  lemma LiteralReadBack(t: StringTables, ring: Ring, history: seq<byte>, b: byte, d: DecoderState, es: seq<Event>)
    requires t.Valid() && Remembers(ring, history) && ring.Valid() && Ready(d, [Event(t.main, b)] + es)
    ensures d.Valid()
    ensures var r := ReadItem(t, ring, d);
            && r.more && r.tables == t.(main := Bump(t.main, b)) && r.written == [b]
            && Remembers(r.ring, history + [b]) && Ready(r.decoder, es)
  {
    hide Read, Low, AllPositive, Ready, Remembers, Bump, ReadUint, CopyBack, Ring.Push;
    Intervals.AdaptiveEncodable(t.main, b);
    ReadBack(d, t.main, b, es);
    PushRemembers(ring, history, b);
  }

  lemma EndReadBack(t: StringTables, ring: Ring, d: DecoderState, es: seq<Event>)
    requires t.Valid() && ring.Valid() && Ready(d, [Event(t.main, EOF_SYMBOL)] + es)
    ensures d.Valid()
    ensures var r := ReadItem(t, ring, d);
            && !r.more && r.tables == t.(main := Bump(t.main, EOF_SYMBOL)) && r.written == [] && r.ring == ring
            && Ready(r.decoder, es)
  {
    hide Read, Low, AllPositive, Ready, Bump, ReadUint, CopyBack, Ring.Push;
    Intervals.AdaptiveEncodable(t.main, EOF_SYMBOL);
    ReadBack(d, t.main, EOF_SYMBOL, es);
  }

  /** The parts of a reference's events, one after the other. */
  lemma ReferenceEvents(t: StringTables, offset: nat, length: nat, es: seq<Event>)
    requires t.Valid() && ItemOk(Reference(offset, length))
    ensures t.offset.Fits(offset - length) && t.length.Fits(length)
    ensures ItemEvents(t, Reference(offset, length)) + es ==
            [Event(t.main, BACKREFERENCE_SYMBOL)]
              + (UintEvents(t.offset, offset - length) + (UintEvents(t.length, length) + es))
  {
    hide Low, AllPositive, UintEvents, UintTables.Fits;
    ReferencesFit(t, Reference(offset, length));
  }

  lemma ReferenceReadBack(t: StringTables, ring: Ring, history: seq<byte>, offset: nat, length: nat, d: DecoderState,
      es: seq<Event>)
    requires t.Valid() && ItemOk(Reference(offset, length)) && Remembers(ring, history) && ring.Valid()
             && |ring.content| == WINDOW <= |history|
    requires Ready(d, ItemEvents(t, Reference(offset, length)) + es)
    ensures d.Valid()
    ensures var r, all := ReadItem(t, ring, d), Repeated(history, offset, length);
            && r.more && r.tables == AfterItem(t, Reference(offset, length)) && history + r.written == all
            && Remembers(r.ring, all) && Ready(r.decoder, es)
  {
    hide Read, Low, AllPositive, Ready, Remembers, Bump, ReadUint, UintEvents, AfterUint, CopyBack, Repeated,
      Ring.Push, ItemEvents, UintTables.Fits;
    ReferenceEvents(t, offset, length, es);
    var second := UintEvents(t.length, length) + es;
    Intervals.AdaptiveEncodable(t.main, BACKREFERENCE_SYMBOL);
    ReadBack(d, t.main, BACKREFERENCE_SYMBOL, UintEvents(t.offset, offset - length) + second);
    var d1 := Read(d, t.main).1;
    UintReadBack(t.offset, offset - length, d1, second);
    UintReadBack(t.length, length, ReadUint(t.offset, d1).2, es);
    CopyRemembers(ring, history, offset, length);
  }

  /** One item: the decompressor adds exactly the bytes it stands for, and its tables and its window
      end as the compressor's. */
  lemma ItemReadBack(t: StringTables, ring: Ring, history: seq<byte>, item: Item, d: DecoderState, es: seq<Event>)
    requires t.Valid() && ItemOk(item) && |ring.content| == WINDOW && Remembers(ring, history)
    requires Ready(d, ItemEvents(t, item) + es)
    ensures d.Valid() && WINDOW <= |history|
    ensures var r := ReadItem(t, ring, d);
            && r.more == !item.EndOfString? && r.tables == AfterItem(t, item)
            && history + r.written == Apply(history, item) && Remembers(r.ring, Apply(history, item))
            && Ready(r.decoder, es)
  {
    hide IsAdaptive, Ready, Remembers, Bump, ReadItem, UintEvents, AfterUint, Repeated, UintTables.Fits,
      UintTables.Valid;
    BackOf(ring, history, 1);
    match item {
      case Literal(b) =>
        LiteralReadBack(t, ring, history, b, d, es);
      case EndOfString =>
        EndReadBack(t, ring, d, es);
        assert history + [] == history;
      case Reference(offset, length) =>
        ReferenceReadBack(t, ring, history, offset, length, d, es);
    }
  }

  // ---------------------------------------------------------------- runs of items

  predicate ItemsOk(items: seq<Item>) {
    forall i | 0 <= i < |items| :: ItemOk(items[i])
  }

  function ApplyAll(history: seq<byte>, items: seq<Item>): (r: seq<byte>)
    requires ItemsOk(items) && WINDOW <= |history|
    ensures |history| <= |r| && r[..|history|] == history
    decreases |items|
  {
    if items == [] then history else ApplyAll(Apply(history, items[0]), items[1..])
  }

  function AllEvents(t: StringTables, items: seq<Item>): seq<Event>
    requires t.Valid() && ItemsOk(items)
    decreases |items|
  {
    if items == [] then [] else ItemEvents(t, items[0]) + AllEvents(AfterItem(t, items[0]), items[1..])
  }

  function AfterAll(t: StringTables, items: seq<Item>): (r: StringTables)
    requires t.Valid() && ItemsOk(items)
    ensures r.Valid()
    decreases |items|
  {
    if items == [] then t else AfterAll(AfterItem(t, items[0]), items[1..])
  }

  lemma {:induction false} RunsCompose(t: StringTables, history: seq<byte>, xs: seq<Item>, ys: seq<Item>)
    requires t.Valid() && ItemsOk(xs) && ItemsOk(ys) && WINDOW <= |history|
    ensures ItemsOk(xs + ys)
    ensures ApplyAll(history, xs + ys) == ApplyAll(ApplyAll(history, xs), ys)
    ensures AllEvents(t, xs + ys) == AllEvents(t, xs) + AllEvents(AfterAll(t, xs), ys)
    ensures AfterAll(t, xs + ys) == AfterAll(AfterAll(t, xs), ys)
    decreases |xs|
  {
    hide Low, AllPositive, ItemEvents, AfterItem, Apply, ItemOk;
    if xs == [] {
      assert xs + ys == ys;
    } else {
      RunsCompose(AfterItem(t, xs[0]), Apply(history, xs[0]), xs[1..], ys);
      assert (xs + ys)[1..] == xs[1..] + ys;
    }
  }

  lemma OneItem(t: StringTables, history: seq<byte>, item: Item)
    requires t.Valid() && ItemOk(item) && WINDOW <= |history|
    ensures ItemsOk([item]) && ApplyAll(history, [item]) == Apply(history, item)
    ensures AllEvents(t, [item]) == ItemEvents(t, item) && AfterAll(t, [item]) == AfterItem(t, item)
  {
    hide Low, AllPositive, ItemEvents, AfterItem, Apply;
    assert AllEvents(AfterItem(t, item), []) == [];
  }

  /** A run of items, extended by one. */
  lemma AppendItem(t: StringTables, history: seq<byte>, items: seq<Item>, item: Item)
    requires t.Valid() && ItemsOk(items) && ItemOk(item) && WINDOW <= |history|
    ensures ItemsOk(items + [item])
    ensures ApplyAll(history, items + [item]) == Apply(ApplyAll(history, items), item)
    ensures AllEvents(t, items + [item]) == AllEvents(t, items) + ItemEvents(AfterAll(t, items), item)
    ensures AfterAll(t, items + [item]) == AfterItem(AfterAll(t, items), item)
  {
    RunsCompose(t, history, items, [item]);
    OneItem(AfterAll(t, items), ApplyAll(history, items), item);
  }

  /** Read items until the end of a string, at most `fuel` of them. */
  function ReadString(t: StringTables, ring: Ring, d: DecoderState, fuel: nat): (r: ItemRead)
    requires t.Valid() && ring.Valid() && d.Valid()
    ensures r.tables.Valid() && r.ring.Valid() && |r.ring.content| == |ring.content| && r.decoder.Valid()
    decreases fuel
  {
    var first := ReadItem(t, ring, d);
    if !first.more || fuel == 0 then first
    else
      var rest := ReadString(first.tables, first.ring, first.decoder, fuel - 1);
      rest.(written := first.written + rest.written)
  }

  /** A string is its items and the end marker. */
  predicate StringOk(items: seq<Item>) {
    ItemsOk(items) && forall i | 0 <= i < |items| :: !items[i].EndOfString?
  }

  lemma {:induction false} StringReadBack(t: StringTables, ring: Ring, history: seq<byte>, items: seq<Item>,
                                          d: DecoderState, es: seq<Event>)
    requires t.Valid() && StringOk(items) && |ring.content| == WINDOW && Remembers(ring, history) && WINDOW <= |history|
    requires Ready(d, AllEvents(t, items + [EndOfString]) + es)
    ensures d.Valid()
    ensures var r := ReadString(t, ring, d, |items|);
            && !r.more && r.tables == AfterAll(t, items + [EndOfString])
            && history + r.written == ApplyAll(history, items) && Remembers(r.ring, ApplyAll(history, items))
            && |r.ring.content| == WINDOW && Ready(r.decoder, es)
    decreases |items|
  {
    hide Ready, Low, AllPositive, Remembers, ItemEvents, AfterItem, Apply, ReadItem;
    BackOf(ring, history, 1);
    var all := items + [EndOfString];
    var after := AfterItem(t, all[0]);
    var rest := AllEvents(after, all[1..]) + es;
    assert AllEvents(t, all) + es == ItemEvents(t, all[0]) + rest;
    ItemReadBack(t, ring, history, all[0], d, rest);
    var first := ReadItem(t, ring, d);
    if items == [] {
      assert all[1..] == [] && rest == es;
      EndAddsNothing(history);
    } else {
      assert all[1..] == items[1..] + [EndOfString];
      var h := Apply(history, items[0]);
      StringReadBack(after, first.ring, h, items[1..], first.decoder, es);
      var tail := ReadString(first.tables, first.ring, first.decoder, |items| - 1);
      assert history + (first.written + tail.written) == history + first.written + tail.written;
    }
  }

  lemma EndAddsNothing(history: seq<byte>)
    requires WINDOW <= |history|
    ensures Apply(history, EndOfString) == history
  {
  }

  // ---------------------------------------------------------------- several strings sharing one window

  predicate StringsOk(strings: seq<seq<Item>>)
    decreases |strings|
  {
    strings != [] ==> StringOk(strings[0]) && StringsOk(strings[1..])
  }

  function StringsEvents(t: StringTables, strings: seq<seq<Item>>): seq<Event>
    requires t.Valid() && StringsOk(strings)
    decreases |strings|
  {
    if strings == [] then []
    else
      var all := strings[0] + [EndOfString];
      AllEvents(t, all) + StringsEvents(AfterAll(t, all), strings[1..])
  }

  /** The texts of the strings: each one's items are applied to the history the earlier ones leave. */
  function Texts(history: seq<byte>, strings: seq<seq<Item>>): seq<seq<byte>>
    requires WINDOW <= |history| && StringsOk(strings)
    decreases |strings|
  {
    if strings == [] then []
    else
      var h := ApplyAll(history, strings[0]);
      [h[|history|..]] + Texts(h, strings[1..])
  }

  /** Decompress one string per fuel. */
  function ReadStrings(t: StringTables, ring: Ring, d: DecoderState, fuels: seq<nat>): seq<seq<byte>>
    requires t.Valid() && ring.Valid() && d.Valid()
    decreases |fuels|
  {
    if fuels == [] then []
    else
      var r := ReadString(t, ring, d, fuels[0]);
      [r.written] + ReadStrings(r.tables, r.ring, r.decoder, fuels[1..])
  }

  function Lengths(strings: seq<seq<Item>>): (r: seq<nat>)
    ensures |r| == |strings| && forall i | 0 <= i < |r| :: r[i] == |strings[i]|
  {
    seq(|strings|, i requires 0 <= i < |strings| => |strings[i]|)
  }

  /** Any number of strings, each ended by its own marker, all sharing one window, are read back exactly. */
  lemma {:induction false} StringsRoundTrip(t: StringTables, ring: Ring, history: seq<byte>, strings: seq<seq<Item>>,
      d: DecoderState)
    requires t.Valid() && |ring.content| == WINDOW && Remembers(ring, history) && WINDOW <= |history|
    requires StringsOk(strings) && d.Valid() && Ready(d, StringsEvents(t, strings))
    ensures ReadStrings(t, ring, d, Lengths(strings)) == Texts(history, strings)
    decreases |strings|
  {
    hide Ready, Low, AllPositive, Remembers, ReadString, AllEvents, AfterAll;
    if strings != [] {
      BackOf(ring, history, 1);
      var all := strings[0] + [EndOfString];
      var es := StringsEvents(AfterAll(t, all), strings[1..]);
      StringReadBack(t, ring, history, strings[0], d, es);
      var r := ReadString(t, ring, d, |strings[0]|);
      var h := ApplyAll(history, strings[0]);
      assert r.written == h[|history|..];
      StringsRoundTrip(r.tables, r.ring, h, strings[1..], r.decoder);
      assert Lengths(strings)[1..] == Lengths(strings[1..]);
    }
  }
}
