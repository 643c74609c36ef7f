/** A compressed JSON stream: the abstract machine that compressor and decompressor share, and one step
    of the decompressor, which is total: it also says what happens on a stream no compressor wrote. */
module JsonStream {
  import opened Common
  import Frequencies
  import Intervals
  import opened CodeStream
  import opened ArithmeticDecoder
  import opened RingBuffers
  import MatchSearch
  import opened StringCodec
  import opened JsonStates
  import opened JsonTokens
  import JsonTokenizer
  import opened JsonCodec

  /** A token outside of strings, a piece of a string's content, or a string's closing delimiter. */
  datatype Chunk = Outside(token: Token) | Part(item: Item) | Close

  // ---------------------------------------------------------------- the shared machine

  /** The tables and the window, where in the grammar the document is, and all the text so far. */
  datatype Machine = Machine(tables: JsonTables, stack: Stack, strings: StringTables, history: seq<byte>,
    text: seq<byte>) {
    predicate Valid() {
      tables.Valid() && Sound(stack, MAX_STACK) && strings.Valid() && MatchSearch.WINDOW <= |history|
    }

    function State(): State
      requires Valid()
    {
      Top(stack)
    }
  }

  predicate ChunkOk(m: Machine, c: Chunk)
    requires m.Valid()
  {
    match c
    case Outside(t) =>
      !m.State().IsString() && Step(m.stack, MAX_STACK, t.Kind()).ok && JsonTokenizer.Canonical(false, t)
      && TokenFits(t)
    case Part(item) => m.State().IsString() && ItemOk(item) && !item.EndOfString?
    case Close => m.State().IsString()
  }

  function ChunkEvents(m: Machine, c: Chunk): seq<Event>
    requires m.Valid() && ChunkOk(m, c)
  {
    match c
    case Outside(t) =>
      [KindEvent(m.tables, m.State(), t.Kind().Symbol())]
        + PayloadEvents(m.tables.Count(m.State(), t.Kind().Symbol()), t)
    case Part(item) => ItemEvents(m.strings, item)
    case Close => ItemEvents(m.strings, EndOfString) + [KindEvent(m.tables, m.State(), StringDelimiter.Symbol())]
  }

  function After(m: Machine, c: Chunk): (r: Machine)
    requires m.Valid() && ChunkOk(m, c)
    ensures r.Valid() && |m.text| <= |r.text| && r.text[..|m.text|] == m.text
  {
    match c
    case Outside(t) =>
      StepSound(m.stack, MAX_STACK, t.Kind());
      Machine(AfterPayload(m.tables.Count(m.State(), t.Kind().Symbol()), t), Step(m.stack, MAX_STACK, t.Kind()).stack,
              m.strings, m.history, m.text + Text(t))
    case Part(item) =>
      m.(strings := AfterItem(m.strings, item), history := Apply(m.history, item), text :=
        m.text + Added(m.history, item))
    case Close =>
      StepSound(m.stack, MAX_STACK, StringDelimiter);
      Machine(m.tables.Count(m.State(), StringDelimiter.Symbol()), Step(m.stack, MAX_STACK, StringDelimiter).stack,
              AfterItem(m.strings, EndOfString), m.history, m.text + [0x22])
  }

  // ---------------------------------------------------------------- the end of a document

  function ContentEnd(m: Machine): seq<Event>
    requires m.Valid()
  {
    if m.State().IsString() then ItemEvents(m.strings, EndOfString) else []
  }

  /** The end marker; in the middle of a string, the string is ended first. */
  function FinishEvents(m: Machine): seq<Event>
    requires m.Valid()
  {
    ContentEnd(m) + [KindEvent(m.tables, m.State(), END)]
  }

  /** What the compressor goes on with: the end marker is not counted. */
  function Finished(m: Machine): (r: Machine)
    requires m.Valid()
    ensures r.Valid()
  {
    m.(stack := INITIAL_STACK, strings := if m.State().IsString() then AfterItem(m.strings, EndOfString) else m.strings)
  }

  /** What the decompressor goes on with: in the middle of a string it counts the end marker. */
  function FinishedReading(m: Machine): (r: Machine)
    requires m.Valid()
    ensures r.Valid()
  {
    Finished(m).(tables := if m.State().IsString() then m.tables.Count(m.State(), END) else m.tables)
  }

  // ---------------------------------------------------------------- one step of the decompressor

  /** The decompressor's whole state; `current` is the state whose table is used next. */
  datatype Side = Side(tables: JsonTables, current: State, stack: Stack, strings: StringTables, ring: Ring,
    decoder: DecoderState) {
    /** A rejected first token moves the stack from START to VALUE, but not the current state. */
    predicate Valid() {
      && tables.Valid() && Sound(stack, MAX_STACK) && strings.Valid() && ring.Valid() && decoder.Valid()
      && (current == Top(stack) || (current.Start? && Top(stack).Value?))
    }
  }

  datatype Report = More | Ended | Illegal

  datatype SideRead = SideRead(report: Report, side: Side, written: seq<byte>)

  /** In a string its delimiter is always accepted. */
  function DelimiterRead(x: Side): (r: SideRead)
    requires x.Valid() && x.current.IsString()
    ensures r.side.Valid() && |r.side.ring.content| == |x.ring.content|
  {
    StepSound(x.stack, MAX_STACK, StringDelimiter);
    var next := Step(x.stack, MAX_STACK, StringDelimiter);
    assert next.ok;
    SideRead(More, x.(stack := next.stack, current := Top(next.stack)), [0x22])
  }

  function CloseString(x: Side): (r: SideRead)
    requires x.Valid() && x.current.IsString()
    ensures r.side.Valid() && |r.side.ring.content| == |x.ring.content|
  {
    var (s, d) := Read(x.decoder, x.tables.Of(x.current));
    var y := x.(tables := x.tables.Count(x.current, s), decoder := d);
    if s == END then SideRead(Ended, y, [])
    else if !KindOf(s).StringDelimiter? then SideRead(Illegal, y, [])
    else DelimiterRead(y)
  }

  function ReadInside(x: Side): (r: SideRead)
    requires x.Valid() && x.current.IsString()
    ensures r.side.Valid() && |r.side.ring.content| == |x.ring.content|
  {
    var r := ReadItem(x.strings, x.ring, x.decoder);
    var y := x.(strings := r.tables, ring := r.ring, decoder := r.decoder);
    if r.more then SideRead(More, y, r.written) else CloseString(y)
  }

  /** The symbol of a kind is read and counted; the grammar decides whether the token goes on. */
  function ReadToken(x: Side, kind: Kind): (r: SideRead)
    requires x.Valid()
    ensures r.side.Valid() && |r.side.ring.content| == |x.ring.content|
  {
    StepSound(x.stack, MAX_STACK, kind);
    var next := Step(x.stack, MAX_STACK, kind);
    if !next.ok then SideRead(Illegal, x.(stack := next.stack), [])
    else
      var payload := ReadPayload(x.tables, kind, x.decoder);
      SideRead(More, x.(tables := payload.tables, stack := next.stack, current := Top(next.stack), decoder :=
        payload.decoder),
               Text(payload.token))
  }

  function ReadOutside(x: Side): (r: SideRead)
    requires x.Valid() && !x.current.IsString()
    ensures r.side.Valid() && |r.side.ring.content| == |x.ring.content|
  {
    var (s, d) := Read(x.decoder, x.tables.Of(x.current));
    if s == END then SideRead(Ended, x.(decoder := d), [])
    else ReadToken(x.(tables := x.tables.Count(x.current, s), decoder := d), KindOf(s))
  }

  function ReadChunk(x: Side): (r: SideRead)
    requires x.Valid()
    ensures r.side.Valid() && |r.side.ring.content| == |x.ring.content|
  {
    if x.current.IsString() then ReadInside(x) else ReadOutside(x)
  }

  // ---------------------------------------------------------------- reading back

  /** The decompressor has the machine's tables, window and stack, and the stream goes on with `es`. */
  ghost predicate InStep(x: Side, m: Machine, es: seq<Event>) {
    && m.Valid() && x.tables == m.tables && x.stack == m.stack && x.current == m.State() && x.strings == m.strings
    && |x.ring.content| == MatchSearch.WINDOW && Remembers(x.ring, m.history) && Ready(x.decoder, es)
  }

  lemma InStepValid(x: Side, m: Machine, es: seq<Event>)
    requires InStep(x, m, es)
    ensures x.Valid()
  {
    hide JsonTables.Valid, StringTables.Valid, Sound, Remembers, Ready;
    ReadyValid(x.decoder, es);
    BackOf(x.ring, m.history, 1);
  }

  lemma KindReadBack(d: DecoderState, t: JsonTables, state: State, symbol: nat, es: seq<Event>)
    requires t.Valid() && symbol <= END && Ready(d, [KindEvent(t, state, symbol)] + es)
    ensures d.Valid() && Read(d, t.Of(state)).0 == symbol && Ready(Read(d, t.Of(state)).1, es)
  {
    hide Ready, Read, Frequencies.Low, Frequencies.AllPositive;
    Intervals.AdaptiveEncodable(t.Of(state), symbol);
    ReadBack(d, t.Of(state), symbol, es);
  }

  /** The kind of a token outside of strings is read and counted. */
  lemma OutsideKindReadBack(x: Side, m: Machine, t: Token, es: seq<Event>)
    requires m.Valid() && ChunkOk(m, Outside(t)) && InStep(x, m, ChunkEvents(m, Outside(t)) + es)
    ensures x.Valid()
    ensures var counted := m.tables.Count(m.State(), t.Kind().Symbol());
            var y := x.(tables := counted, decoder := Read(x.decoder, x.tables.Of(x.current)).1);
            y.Valid() && ReadChunk(x) == ReadToken(y, t.Kind()) && Ready(y.decoder, PayloadEvents(counted, t) + es)
  {
    hide Ready, Read, Remembers, Sound, Step, JsonTables.Valid, StringTables.Valid, PayloadEvents, ReadToken,
      ReadInside, JsonTokenizer.Canonical, TokenFits, JsonTables.Count, JsonTables.Of, KindEvent;
    var s := t.Kind().Symbol();
    var rest := PayloadEvents(m.tables.Count(m.State(), s), t) + es;
    assert ChunkEvents(m, Outside(t)) + es == [KindEvent(m.tables, m.State(), s)] + rest;
    InStepValid(x, m, ChunkEvents(m, Outside(t)) + es);
    KindReadBack(x.decoder, m.tables, m.State(), s, rest);
    KindOfSymbol(t.Kind());
  }

  lemma OutsideReadBack(x: Side, m: Machine, t: Token, es: seq<Event>)
    requires m.Valid() && ChunkOk(m, Outside(t)) && InStep(x, m, ChunkEvents(m, Outside(t)) + es)
    ensures x.Valid()
    ensures var r := ReadChunk(x);
            r.report.More? && r.written == Text(t) && InStep(r.side, After(m, Outside(t)), es)
  {
    hide Ready, Read, ReadChunk, Remembers, Sound, Step, JsonTables.Valid, StringTables.Valid, ReadPayload,
      PayloadEvents, AfterPayload, JsonTokenizer.Canonical, Text, TokenFits, JsonTables.Count, JsonTables.Of,
      KindEvent;
    OutsideKindReadBack(x, m, t, es);
    PayloadReadBack(m.tables.Count(m.State(), t.Kind().Symbol()), t, Read(x.decoder, x.tables.Of(x.current)).1, es);
  }

  lemma PartReadBack(x: Side, m: Machine, item: Item, es: seq<Event>)
    requires m.Valid() && ChunkOk(m, Part(item)) && InStep(x, m, ChunkEvents(m, Part(item)) + es)
    ensures x.Valid()
    ensures var r := ReadChunk(x);
            r.report.More? && r.written == Added(m.history, item) && InStep(r.side, After(m, Part(item)), es)
  {
    hide Ready, Remembers, Sound, JsonTables.Valid, StringTables.Valid, ReadItem, ItemEvents, AfterItem, Apply;
    InStepValid(x, m, ChunkEvents(m, Part(item)) + es);
    ItemReadBack(m.strings, x.ring, m.history, item, x.decoder, es);
    var r := ReadItem(x.strings, x.ring, x.decoder);
    assert Added(m.history, item) == r.written;
  }

  /** Up to the symbol that follows the end of a string's content. */
  lemma EndOfContent(x: Side, m: Machine, symbol: nat, es: seq<Event>)
    requires m.Valid() && m.State().IsString() && symbol <= END
    requires InStep(x, m, ItemEvents(m.strings, EndOfString) + [KindEvent(m.tables, m.State(), symbol)] + es)
    ensures x.Valid()
    ensures var m' := m.(strings := AfterItem(m.strings, EndOfString));
            exists y: Side :: InStep(y, m', [KindEvent(m.tables, m.State(), symbol)] + es) && y.Valid()
              && ReadChunk(x) == CloseString(y)
  {
    hide Ready, Remembers, Sound, JsonTables.Valid, StringTables.Valid, ReadItem, ItemEvents, AfterItem, CloseString,
      KindEvent;
    var rest := [KindEvent(m.tables, m.State(), symbol)] + es;
    assert ItemEvents(m.strings, EndOfString) + [KindEvent(m.tables, m.State(), symbol)] + es ==
      ItemEvents(m.strings, EndOfString) + rest;
    InStepValid(x, m, ItemEvents(m.strings, EndOfString) + rest);
    ItemReadBack(m.strings, x.ring, m.history, EndOfString, x.decoder, rest);
    EndAddsNothing(m.history);
    var r := ReadItem(x.strings, x.ring, x.decoder);
    var y := x.(strings := r.tables, ring := r.ring, decoder := r.decoder);
    assert InStep(y, m.(strings := AfterItem(m.strings, EndOfString)), rest);
  }

  lemma CloseReadBack(x: Side, m: Machine, es: seq<Event>)
    requires m.Valid() && ChunkOk(m, Close) && InStep(x, m, ChunkEvents(m, Close) + es)
    ensures x.Valid()
    ensures var r := ReadChunk(x);
            r.report.More? && r.written == [0x22] && InStep(r.side, After(m, Close), es)
  {
    hide Ready, Read, Remembers, Sound, Step, JsonTables.Valid, StringTables.Valid, ItemEvents, AfterItem, ReadChunk,
      JsonTables.Count, JsonTables.Of, KindEvent;
    EndOfContent(x, m, StringDelimiter.Symbol(), es);
    var y: Side :| InStep(y, m.(strings := AfterItem(m.strings, EndOfString)),
      [KindEvent(m.tables, m.State(), StringDelimiter.Symbol())] + es)
                   && y.Valid() && ReadChunk(x) == CloseString(y);
    KindReadBack(y.decoder, m.tables, m.State(), StringDelimiter.Symbol(), es);
    KindOfSymbol(StringDelimiter);
  }

  /** Every chunk is read back: the decompressor prints its text and ends with the compressor's tables,
      window, stack, and the rest of the stream. */
  lemma ChunkReadBack(x: Side, m: Machine, c: Chunk, es: seq<Event>)
    requires m.Valid() && ChunkOk(m, c) && InStep(x, m, ChunkEvents(m, c) + es)
    ensures x.Valid()
    ensures var r := ReadChunk(x);
            r.report.More? && m.text + r.written == After(m, c).text && InStep(r.side, After(m, c), es)
  {
    hide InStep, ReadChunk, Apply;
    match c {
      case Outside(t) => OutsideReadBack(x, m, t, es);
      case Part(item) => PartReadBack(x, m, item, es);
      case Close => CloseReadBack(x, m, es);
    }
  }

  lemma FinishInString(x: Side, m: Machine, es: seq<Event>)
    requires m.Valid() && m.State().IsString() && InStep(x, m, FinishEvents(m) + es)
    ensures x.Valid()
    ensures var r := ReadChunk(x);
            && r.report.Ended? && r.written == []
            && InStep(r.side.(stack := INITIAL_STACK, current := Start), FinishedReading(m), es)
  {
    hide Ready, Read, Remembers, Sound, JsonTables.Valid, StringTables.Valid, ItemEvents, AfterItem, ReadChunk,
      JsonTables.Count, JsonTables.Of, KindEvent;
    EndOfContent(x, m, END, es);
    var y: Side :| InStep(y, m.(strings := AfterItem(m.strings, EndOfString)),
      [KindEvent(m.tables, m.State(), END)] + es)
                   && y.Valid() && ReadChunk(x) == CloseString(y);
    KindReadBack(y.decoder, m.tables, m.State(), END, es);
  }

  lemma FinishOutside(x: Side, m: Machine, es: seq<Event>)
    requires m.Valid() && !m.State().IsString() && InStep(x, m, FinishEvents(m) + es)
    ensures x.Valid()
    ensures var r := ReadChunk(x);
            && r.report.Ended? && r.written == []
            && InStep(r.side.(stack := INITIAL_STACK, current := Start), FinishedReading(m), es)
  {
    hide Ready, Read, ReadChunk, Remembers, Sound, JsonTables.Valid, StringTables.Valid, ItemEvents, AfterItem,
      JsonTables.Count, JsonTables.Of, KindEvent, Side.Valid;
    assert FinishEvents(m) + es == [KindEvent(m.tables, m.State(), END)] + es;
    InStepValid(x, m, FinishEvents(m) + es);
    KindReadBack(x.decoder, m.tables, m.State(), END, es);
    EndOutside(x);
  }

  lemma EndOutside(x: Side)
    requires x.Valid() && !x.current.IsString() && Read(x.decoder, x.tables.Of(x.current)).0 == END
    ensures ReadChunk(x) == SideRead(Ended, x.(decoder := Read(x.decoder, x.tables.Of(x.current)).1), [])
  {
    hide Read, ReadToken, ReadInside, Sound, JsonTables.Valid, StringTables.Valid, JsonTables.Count, JsonTables.Of;
  }

  /** The end marker stops the decompressor, which then differs from the compressor in at most one table. */
  lemma FinishReadBack(x: Side, m: Machine, es: seq<Event>)
    requires m.Valid() && InStep(x, m, FinishEvents(m) + es)
    ensures x.Valid()
    ensures var r := ReadChunk(x);
            && r.report.Ended? && r.written == []
            && InStep(r.side.(stack := INITIAL_STACK, current := Start), FinishedReading(m), es)
  {
    hide InStep, FinishEvents, ReadChunk, FinishedReading, Sound, JsonTables.Valid, StringTables.Valid;
    if m.State().IsString() {
      FinishInString(x, m, es);
    } else {
      FinishOutside(x, m, es);
    }
  }
}
