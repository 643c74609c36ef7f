/** Compressing a series of strings with one compressor and decompressing them again. */
module StringRoundTrip {
  import ByteSinks
  import opened Common
  import Frequencies
  import Intervals
  import CodeStream
  import ArithmeticEncoder
  import opened ArithmeticDecoder
  import opened RingBuffers
  import opened MatchSearch
  import opened StringCodec
  import opened StringCompressor
  import opened StringDecompressor

  // ---------------------------------------------------------------- runs of whole strings

  function AfterStrings(t: StringTables, strings: seq<seq<Item>>): (r: StringTables)
    requires t.Valid() && StringsOk(strings)
    ensures r.Valid()
    decreases |strings|
  {
    if strings == [] then t else AfterStrings(AfterAll(t, strings[0] + [EndOfString]), strings[1..])
  }

  function HistoryAfter(history: seq<byte>, strings: seq<seq<Item>>): (r: seq<byte>)
    requires WINDOW <= |history| && StringsOk(strings)
    ensures WINDOW <= |r|
    decreases |strings|
  {
    if strings == [] then history else HistoryAfter(ApplyAll(history, strings[0]), strings[1..])
  }

  lemma {:induction false} AppendString(t: StringTables, history: seq<byte>, strings: seq<seq<Item>>, items: seq<Item>)
    requires t.Valid() && WINDOW <= |history| && StringsOk(strings) && StringOk(items)
    ensures var more, end := strings + [items], items + [EndOfString];
            && StringsOk(more)
            && StringsEvents(t, more) == StringsEvents(t, strings) + AllEvents(AfterStrings(t, strings), end)
            && AfterStrings(t, more) == AfterAll(AfterStrings(t, strings), end)
            && HistoryAfter(history, more) == ApplyAll(HistoryAfter(history, strings), items)
            && Texts(history, more) == Texts(history, strings)
               + [ApplyAll(HistoryAfter(history, strings), items)[|HistoryAfter(history, strings)|..]]
    decreases |strings|
  {
    hide StringTables.Valid, AllEvents, AfterAll, ApplyAll;
    var more := strings + [items];
    if strings == [] {
      assert more[0] == items && more[1..] == [];
    } else {
      assert more[0] == strings[0] && more[1..] == strings[1..] + [items];
      AppendString(AfterAll(t, strings[0] + [EndOfString]), ApplyAll(history, strings[0]), strings[1..], items);
    }
  }

  // ---------------------------------------------------------------- compressing

  /** One string and its end. */
  method CompressString(strcomp: StringCompressor, text: seq<byte>) returns (ghost items: seq<Item>)
    requires strcomp.Valid() && strcomp.encoder.Valid() && strcomp.bytesInBuffer == 0
    modifies strcomp.Repr(), strcomp.encoder
    ensures strcomp.Valid() && strcomp.encoder.Valid() && strcomp.bytesInBuffer == 0
    ensures old(StateOf(strcomp)).Valid() && StringOk(items) && items == ItemsOfText(old(strcomp.history), text)
    ensures strcomp.history == ApplyAll(old(strcomp.history), items) == old(strcomp.history) + text
    ensures strcomp.Tables() == AfterAll(old(strcomp.Tables()), items + [EndOfString])
    ensures strcomp.encoder.sent == old(strcomp.encoder.sent) + AllEvents(old(strcomp.Tables()), items + [EndOfString])
  {
    hide Moved, ArithmeticEncoder.Run, StringCompressor.Valid, Took, AllEvents, AfterAll, ApplyAll,
      StringTables.Valid, ItemsOfText, FlushItems, WriteItems;
    strcomp.Facts();
    ghost var start := StateOf(strcomp);
    TookNothing(start);
    items := [];
    assert strcomp.Pending() + text[0..] == text;
    assert [] + ItemsOfText(strcomp.history, text) == ItemsOfText(strcomp.history, text);
    var i := 0;
    while i < |text|
      invariant 0 <= i <= |text| && strcomp.Valid() && strcomp.encoder.Valid()
                && strcomp.bytesInBuffer < MATCH_LIMIT - 1
      invariant Took(start, StateOf(strcomp), items, text[..i])
      invariant |strcomp.history| >= WINDOW
      invariant ItemsOfText(start.history, text) ==
                items + ItemsOfText(strcomp.history, strcomp.Pending() + text[i..])
    {
      ghost var before, pending, coded := strcomp.history, strcomp.Pending() + [text[i]], items;
      assert strcomp.Pending() + text[i..] == pending + text[i + 1..];
      items := TakeOneMore(strcomp, text[i], start, items, text[..i]);
      ghost var last := WriteItems(before, pending);
      WriteIsText(before, pending, text[i + 1..], last, strcomp.history, strcomp.Pending());
      Appended(coded, last, ItemsOfText(strcomp.history, strcomp.Pending() + text[i + 1..]));
      assert text[..i + 1] == text[..i] + [text[i]];
      i := i + 1;
    }
    ghost var middle := StateOf(strcomp);
    strcomp.Facts();
    FlushIsText(strcomp.history, strcomp.Pending());
    assert strcomp.Pending() + text[|text|..] == strcomp.Pending();
    ghost var last := strcomp.Flush();
    assert text[..|text|] == text;
    TookMoved(start, middle, items, text);
    WholeString(start, middle, items, text, last);
    items := items + last;
  }

  lemma Appended(a: seq<Item>, b: seq<Item>, c: seq<Item>)
    ensures a + (b + c) == (a + b) + c
  {
  }

  lemma TookMoved(a: StringState, b: StringState, items: seq<Item>, text: seq<byte>)
    requires a.Valid() && Took(a, b, items, text)
    ensures Moved(a, b, items, text)
  {
  }

  lemma WholeString(a: StringState, b: StringState, items: seq<Item>, text: seq<byte>, last: seq<Item>)
    requires a.Valid() && b.Valid() && Moved(a, b, items, text) && a.pending == [] && StringOk(last)
    requires ApplyAll(b.history, last) == b.history + b.pending
    ensures StringOk(items + last) && ApplyAll(a.history, items + last) == a.history + text == ApplyAll(b.history, last)
    ensures var end := items + last + [EndOfString];
            && AfterAll(a.tables, end) == AfterAll(b.tables, last + [EndOfString])
            && a.sent + AllEvents(a.tables, end) == b.sent + AllEvents(b.tables, last + [EndOfString])
  {
    hide AllEvents, AfterAll, ApplyAll, StringTables.Valid;
    assert a.history + a.pending == a.history;
    RunsCompose(a.tables, a.history, items, last);
    assert ItemsOk(last + [EndOfString]);
    RunsCompose(a.tables, a.history, items, last + [EndOfString]);
    assert items + (last + [EndOfString]) == items + last + [EndOfString];
  }

  /** Any strings, one after the other, in one stream. */
  method CompressStrings(texts: seq<seq<byte>>) returns (bits: seq<bit>, ghost strings: seq<seq<Item>>)
    ensures StringsOk(strings) && Texts(Repeat(0, WINDOW), strings) == texts
    ensures bits == CodeStream.Emit(Intervals.FULL_INTERVAL, StringsEvents(InitialTables(), strings))
  {
    hide ArithmeticEncoder.Run, StringCompressor.Valid, ArithmeticEncoder.Encoder.Valid, StringCompressor.Repr,
      ApplyAll, AllEvents, AfterAll, StringTables.Valid, InitialTables, ItemsOfText, Texts;
    var encoder := new ArithmeticEncoder.Encoder();
    var strcomp := new StringCompressor(encoder);
    ghost var t, history := InitialTables(), Repeat(0, WINDOW);
    NoTexts(history);
    strings := [];
    var i := 0;
    while i < |texts|
      invariant 0 <= i <= |texts| && strcomp.Valid() && encoder.Valid() && strcomp.bytesInBuffer == 0
      invariant fresh(strcomp.Repr()) && fresh(encoder)
      invariant StringsOk(strings) && Texts(history, strings) == texts[..i]
      invariant encoder.sent == StringsEvents(t, strings) && strcomp.Tables() == AfterStrings(t, strings)
      invariant strcomp.history == HistoryAfter(history, strings)
    {
      ghost var before := strcomp.history;
      ghost var items := CompressString(strcomp, texts[i]);
      AppendString(t, history, strings, items);
      assert (before + texts[i])[|before|..] == texts[i];
      assert texts[..i + 1] == texts[..i] + [texts[i]];
      strings := strings + [items];
      i := i + 1;
    }
    encoder.Finalize();
    bits := encoder.output;
  }

  // ---------------------------------------------------------------- decompressing

  /** Reading one more item of a string. */
  lemma ReadStringStep(t: StringTables, ring: Ring, d: DecoderState, fuel: nat, before: seq<byte>)
    requires t.Valid() && ring.Valid() && d.Valid() && !ReadString(t, ring, d, fuel).more
    ensures var first, all := ReadItem(t, ring, d), ReadString(t, ring, d, fuel);
            if first.more then
              && fuel > 0
              && var rest := ReadString(first.tables, first.ring, first.decoder, fuel - 1);
              && !rest.more && rest.tables == all.tables && rest.ring == all.ring && rest.decoder == all.decoder
              && before + all.written == (before + first.written) + rest.written
            else all == first
  {
    hide ReadItem;
  }

  /** Items until the end of a string; `fuel` is any bound that is large enough. */
  method DecompressString(strdecomp: StringDecompressor, ghost fuel: nat)
    requires strdecomp.Valid() && strdecomp.decoder.State().Valid()
    requires !ReadString(strdecomp.Tables(), strdecomp.lookback.View(), strdecomp.decoder.State(), fuel).more
    modifies strdecomp.Repr(), strdecomp.decoder, strdecomp.writer
    ensures strdecomp.Valid() && strdecomp.decoder.State().Valid()
    ensures var r := ReadString(old(strdecomp.Tables()), old(strdecomp.lookback.View()),
            old(strdecomp.decoder.State()), fuel);
            && strdecomp.Tables() == r.tables && strdecomp.lookback.View() == r.ring
            && strdecomp.decoder.State() == r.decoder
            && strdecomp.writer.bytes == old(strdecomp.writer.bytes) + r.written
  {
    hide ReadItem, ReadString, Frequencies.IsAdaptive, RingBuffer.View, Decoder.State, DecoderState.Valid;
    ghost var goal := ReadString(strdecomp.Tables(), strdecomp.lookback.View(), strdecomp.decoder.State(), fuel);
    ghost var left := fuel;
    var more := true;
    while more
      invariant strdecomp.Valid() && strdecomp.decoder.State().Valid()
      invariant more ==>
                  var r := ReadString(strdecomp.Tables(), strdecomp.lookback.View(), strdecomp.decoder.State(), left);
                  && !r.more && r.tables == goal.tables && r.ring == goal.ring && r.decoder == goal.decoder
                  && strdecomp.writer.bytes + r.written == old(strdecomp.writer.bytes) + goal.written
      invariant !more ==>
                  && strdecomp.Tables() == goal.tables && strdecomp.lookback.View() == goal.ring
                  && strdecomp.decoder.State() == goal.decoder
                  && strdecomp.writer.bytes == old(strdecomp.writer.bytes) + goal.written
      decreases more, left
    {
      ReadStringStep(strdecomp.Tables(), strdecomp.lookback.View(), strdecomp.decoder.State(), left,
        strdecomp.writer.bytes);
      more := strdecomp.ReadNext();
      left := if more then left - 1 else left;
    }
  }

  /** The decompressor stands where the compressor stood before the given strings. */
  ghost predicate Following(strdecomp: StringDecompressor, history: seq<byte>, strings: seq<seq<Item>>)
    reads strdecomp.Repr(), strdecomp.decoder
  {
    && strdecomp.Valid() && strdecomp.decoder.State().Valid() && StringsOk(strings) && WINDOW <= |history|
    && strdecomp.Tables().Valid() && Remembers(strdecomp.lookback.View(), history)
    && |strdecomp.lookback.View().content| == WINDOW
    && Ready(strdecomp.decoder.State(), StringsEvents(strdecomp.Tables(), strings))
  }

  /** What reading the first of the strings gives, and what then remains to be read. */
  ghost predicate FirstRead(r: ItemRead, t: StringTables, history: seq<byte>, strings: seq<seq<Item>>)
    requires t.Valid() && StringsOk(strings) && strings != [] && WINDOW <= |history|
  {
    && !r.more && r.tables == AfterAll(t, strings[0] + [EndOfString])
    && history + r.written == ApplyAll(history, strings[0])
    && Remembers(r.ring, ApplyAll(history, strings[0])) && |r.ring.content| == WINDOW
    && Ready(r.decoder, StringsEvents(r.tables, strings[1..])) && r.decoder.Valid()
  }

  lemma NextString(t: StringTables, ring: Ring, d: DecoderState, history: seq<byte>, strings: seq<seq<Item>>)
    requires t.Valid() && ring.Valid() && d.Valid() && StringsOk(strings) && strings != [] && WINDOW <= |history|
    requires Remembers(ring, history) && |ring.content| == WINDOW && Ready(d, StringsEvents(t, strings))
    ensures FirstRead(ReadString(t, ring, d, |strings[0]|), t, history, strings)
  {
    hide Ready, Remembers, ReadString, AllEvents, AfterAll, ApplyAll, StringTables.Valid, DecoderState.Valid;
    var es := StringsEvents(AfterAll(t, strings[0] + [EndOfString]), strings[1..]);
    StringReadBack(t, ring, history, strings[0], d, es);
    ReadyValid(ReadString(t, ring, d, |strings[0]|).decoder, es);
  }

  method NewDecompressor(bits: seq<bit>, ghost padding: nat, ghost strings: seq<seq<Item>>)
    returns (strdecomp: StringDecompressor)
    requires StringsOk(strings)
             && bits ==
                CodeStream.Emit(Intervals.FULL_INTERVAL, StringsEvents(InitialTables(), strings)) + Repeat(0, padding)
    ensures Following(strdecomp, Repeat(0, WINDOW), strings) && strdecomp.Tables() == InitialTables()
    ensures fresh(strdecomp.Repr()) && fresh(strdecomp.decoder) && fresh(strdecomp.writer)
  {
    hide Ready, Remembers, StringTables.Valid, RingBuffer.View, CodeStream.Emit, InitialTables, Initial, EmptyRing,
      DecoderState.Valid, StringsEvents, StringDecompressor.Valid;
    var writer := new ByteSinks.ByteSink();
    var decoder := new Decoder(bits);
    strdecomp := new StringDecompressor(decoder, writer);
    InitialReady(StringsEvents(InitialTables(), strings), padding);
    ReadyValid(Initial(bits), StringsEvents(InitialTables(), strings));
    EmptyRemembers(WINDOW);
  }

  /** One string; the decompressor then stands before the next. */
  method DecompressNext(strdecomp: StringDecompressor, ghost history: seq<byte>, ghost strings: seq<seq<Item>>)
    returns (text: seq<byte>)
    requires Following(strdecomp, history, strings) && strings != []
    modifies strdecomp.Repr(), strdecomp.decoder, strdecomp.writer
    ensures history + text == ApplyAll(history, strings[0]) && Following(strdecomp, history + text, strings[1..])
  {
    hide Ready, Remembers, ReadString, AllEvents, AfterAll, ApplyAll, StringTables.Valid, RingBuffer.View,
      StringsEvents, DecoderState.Valid, StringDecompressor.Repr, StringDecompressor.Valid;
    FollowingRing(strdecomp, history, strings);
    NextString(strdecomp.Tables(), strdecomp.lookback.View(), strdecomp.decoder.State(), history, strings);
    var before := |strdecomp.writer.bytes|;
    DecompressString(strdecomp, |strings[0]|);
    text := strdecomp.writer.bytes[before..];
  }

  lemma FollowingRing(strdecomp: StringDecompressor, history: seq<byte>, strings: seq<seq<Item>>)
    requires Following(strdecomp, history, strings)
    ensures strdecomp.lookback.View().Valid()
  {
  }

  lemma TextsStep(history: seq<byte>, strings: seq<seq<Item>>, text: seq<byte>, done: seq<seq<byte>>)
    requires WINDOW <= |history| && StringsOk(strings) && strings != []
             && history + text == ApplyAll(history, strings[0])
    ensures done + Texts(history, strings) == (done + [text]) + Texts(history + text, strings[1..])
  {
    hide ApplyAll;
    assert (history + text)[|history|..] == text;
    Regrouped(done, text, Texts(history + text, strings[1..]));
  }

  lemma Regrouped(done: seq<seq<byte>>, text: seq<byte>, rest: seq<seq<byte>>)
    ensures done + ([text] + rest) == (done + [text]) + rest
  {
  }

  /** As many strings as there are, from a stream and any zero padding. */
  method DecompressStrings(bits: seq<bit>, count: nat, ghost padding: nat, ghost strings: seq<seq<Item>>)
    returns (texts: seq<seq<byte>>)
    requires StringsOk(strings) && count == |strings|
    requires bits ==
             CodeStream.Emit(Intervals.FULL_INTERVAL, StringsEvents(InitialTables(), strings)) + Repeat(0, padding)
    ensures texts == Texts(Repeat(0, WINDOW), strings)
  {
    hide ApplyAll, CodeStream.Emit, InitialTables, StringsEvents, StringDecompressor.Repr, Following, StringsOk,
      Texts;
    var strdecomp := NewDecompressor(bits, padding, strings);
    ghost var history, left := Repeat(0, WINDOW), strings;
    texts := [];
    assert texts + Texts(history, left) == Texts(history, left);
    while |texts| < count
      invariant |texts| + |left| == count && fresh(strdecomp.Repr()) && fresh(strdecomp.decoder)
                && fresh(strdecomp.writer)
      invariant WINDOW <= |history| && StringsOk(left) && Following(strdecomp, history, left)
      invariant texts + Texts(history, left) == Texts(Repeat(0, WINDOW), strings)
    {
      var text := DecompressNext(strdecomp, history, left);
      TextsStep(history, left, text, texts);
      StringsOkRest(left);
      texts := texts + [text];
      history, left := history + text, left[1..];
    }
    assert left == [];
    NoTexts(history);
    assert texts + [] == texts;
  }

  lemma StringsOkRest(strings: seq<seq<Item>>)
    requires StringsOk(strings) && strings != []
    ensures StringsOk(strings[1..])
  {
  }

  lemma NoTexts(history: seq<byte>)
    requires WINDOW <= |history|
    ensures StringsOk([]) && Texts(history, []) == []
  {
  }

  /** For every series of byte sequences: all of them come back, whatever matches the compressor finds. */
  method RoundTrip(texts: seq<seq<byte>>, padding: nat) returns (output: seq<seq<byte>>)
    ensures output == texts
  {
    hide StringsEvents, Texts, CodeStream.Emit, InitialTables;
    var bits, strings := CompressStrings(texts);
    TextsCount(Repeat(0, WINDOW), strings);
    output := DecompressStrings(bits + Repeat(0, padding), |texts|, padding, strings);
  }

  lemma {:induction false} TextsCount(history: seq<byte>, strings: seq<seq<Item>>)
    requires WINDOW <= |history| && StringsOk(strings)
    ensures |Texts(history, strings)| == |strings|
    decreases |strings|
  {
    if strings != [] {
      TextsCount(ApplyAll(history, strings[0]), strings[1..]);
    }
  }
}
