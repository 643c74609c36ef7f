/** The JSON compressor (json_compressor.c). */
module JsonCompressor {
  import Bitwise
  import opened Common
  import opened Frequencies
  import Intervals
  import opened CodeStream
  import opened ArithmeticEncoder
  import opened UintCodec
  import RingBuffers
  import opened MatchSearch
  import opened StringCodec
  import opened StringCompressor
  import opened JsonStates
  import opened JsonTokens
  import opened JsonTokenizer
  import opened JsonCodec
  import opened JsonStream
  import opened JsonDocuments
  import opened JsonCompressionBase

  // ---------------------------------------------------------------- payloads

  /** The fields before `k` are written and their tables have adapted; `goal` is all that is sent in the end. */
  ghost predicate WrittenUpTo(base: CompressionBase, encoder: Encoder, uints: seq<UintTables>, n: JsonNumber, k: nat,
      goal: seq<Event>)
    requires FieldTablesOk(uints) && FieldsFit(Values(n)) && k <= FIELDS
    reads base.Repr(), encoder
  {
    && base.NumberTables() == Joined(AfterFields(uints, Presence(n.flags), Values(n)), uints, k)
    && encoder.Valid() && encoder.sent + FieldEvents(uints, Presence(n.flags), Values(n), k) == goal
  }

  method WriteField(base: CompressionBase, encoder: Encoder, ghost uints: seq<UintTables>, ghost n: JsonNumber, k: nat,
                    present: bool, value: nat, ghost goal: seq<Event>)
    requires FieldTablesOk(uints) && FieldsFit(Values(n)) && k < FIELDS && base.Separate()
    requires present == Presence(n.flags)[k] && value == Values(n)[k]
    requires WrittenUpTo(base, encoder, uints, n, k, goal)
    modifies base.Field(k), encoder
    ensures WrittenUpTo(base, encoder, uints, n, k + 1, goal)
  {
    hide ArithmeticEncoder.Run, IsAdaptive, UintEvents, AfterUint, LengthSymbol, Joined, AfterFields, FieldEvents,
      FieldTableOk, CompressionBase.Field, CompressionBase.NumberTables;
    var tables := base.Field(k);
    base.AllFields();
    base.FieldsDiffer();
    JoinedStep(AfterFields(uints, Presence(n.flags), Values(n)), uints, k);
    AfterFieldsAt(uints, n, k);
    FieldEventsStep(uints, n, k);
    ghost var before := base.NumberTables();
    if present {
      WriteUint(tables, encoder, value);
    }
    assert tables.View() == AfterField(uints[k], present, value);
    base.OneFieldChanged(before, k);
  }

  lemma FieldEventsStep(uints: seq<UintTables>, n: JsonNumber, k: nat)
    requires FieldTablesOk(uints) && FieldsFit(Values(n)) && k < FIELDS
    ensures var p, v := Presence(n.flags), Values(n);
            && uints[k].Valid() && uints[k].Fits(v[k])
            && FieldEvents(uints, p, v, k) == FieldEvent(uints[k], p[k], v[k]) + FieldEvents(uints, p, v, k + 1)
  {
    hide LengthSymbol, IsAdaptive, FieldEvent;
    assert FieldTableOk(k, uints[k]) && FieldFits(k, Values(n)[k]);
  }

  lemma AfterFieldsAt(uints: seq<UintTables>, n: JsonNumber, k: nat)
    requires FieldTablesOk(uints) && FieldsFit(Values(n)) && k < FIELDS
    ensures var p, v := Presence(n.flags), Values(n);
            uints[k].Valid() && uints[k].Fits(v[k]) && AfterFields(uints, p, v)[k] == AfterField(uints[k], p[k], v[k])
  {
    hide LengthSymbol, Low, AllPositive, AfterField;
    assert FieldTableOk(k, uints[k]) && FieldFits(k, Values(n)[k]);
  }

  method WriteNumber(base: CompressionBase, encoder: Encoder, n: JsonNumber)
    requires base.Valid() && encoder.Valid() && FieldsFit(Values(n))
    modifies base.Repr() - {base}, encoder
    ensures base.Valid() && base.View() ==
            old(base.View()).(uints := AfterFields(old(base.NumberTables()), Presence(n.flags), Values(n)))
    ensures encoder.Valid()
    ensures encoder.sent == old(encoder.sent) + FieldEvents(old(base.NumberTables()), Presence(n.flags), Values(n), 0)
  {
    hide ArithmeticEncoder.Run, IsAdaptive, FieldsFit, FieldTablesOk, WrittenUpTo, CompressionBase.NumberTables;
    ghost var uints := base.NumberTables();
    ghost var goal := encoder.sent + FieldEvents(uints, Presence(n.flags), Values(n), FLAGS);
    var flags := n.flags;
    NothingWritten(base, encoder, n);
    WriteField(base, encoder, uints, n, FLAGS, true, flags.Byte(), goal);
    WriteField(base, encoder, uints, n, INTEGER, !flags.zero, n.integerPart, goal);
    WriteField(base, encoder, uints, n, FRACTION_ZEROES, flags.fraction, n.fractionZeroes, goal);
    WriteField(base, encoder, uints, n, FRACTION, flags.fraction, n.fractionPart, goal);
    WriteField(base, encoder, uints, n, EXPONENT_ZEROES, flags.exponent, n.exponentZeroes, goal);
    WriteField(base, encoder, uints, n, EXPONENT, flags.exponent, n.exponentPart, goal);
    AllWritten(base, encoder, uints, n, goal);
  }

  lemma NothingWritten(base: CompressionBase, encoder: Encoder, n: JsonNumber)
    requires base.Valid() && encoder.Valid() && FieldsFit(Values(n))
    ensures var uints := base.NumberTables();
            FieldTablesOk(uints) && WrittenUpTo(base, encoder, uints, n, 0,
              encoder.sent + FieldEvents(uints, Presence(n.flags), Values(n), 0))
  {
    hide FieldTablesOk, FieldsFit, AfterFields, FieldEvents, CompressionBase.NumberTables;
  }

  lemma AllWritten(base: CompressionBase, encoder: Encoder, uints: seq<UintTables>, n: JsonNumber, goal: seq<Event>)
    requires FieldTablesOk(uints) && FieldsFit(Values(n)) && WrittenUpTo(base, encoder, uints, n, FIELDS, goal)
    ensures encoder.Valid() && encoder.sent == goal
    ensures base.NumberTables() == AfterFields(uints, Presence(n.flags), Values(n))
  {
    hide FieldTablesOk, FieldsFit, AfterFields, CompressionBase.NumberTables;
  }

  method WriteWhitespace(base: CompressionBase, encoder: Encoder, b: byte)
    requires base.Valid() && encoder.Valid()
    modifies base`whitespaces, encoder
    ensures base.Valid() && base.View() == AfterPayload(old(base.View()), Space(b))
    ensures encoder.Valid() && encoder.sent == old(encoder.sent) + PayloadEvents(old(base.View()), Space(b))
  {
    hide ArithmeticEncoder.Run, Low, AllPositive, Bump;
    assert SPACES[0] == 0x20 && SPACES[1] == 0x0A && SPACES[2] == 0x0D;
    var symbol := 0;
    while symbol < |SPACES| - 1 && b != SPACES[symbol]
      invariant 0 <= symbol < |SPACES| && forall k | 0 <= k < symbol :: b != SPACES[k]
    {
      symbol := symbol + 1;
    }
    assert symbol == SpaceSymbol(b);
    Intervals.AdaptiveEncodable(base.whitespaces, symbol);
    encoder.Write(base.whitespaces, symbol);
    base.whitespaces := Bump(base.whitespaces, symbol);
  }

  method WritePayload(base: CompressionBase, encoder: Encoder, token: Token)
    requires base.Valid() && encoder.Valid() && TokenFits(token)
    modifies base`whitespaces, base.Repr() - {base}, encoder
    ensures base.Valid() && base.View() == AfterPayload(old(base.View()), token)
    ensures encoder.Valid() && encoder.sent == old(encoder.sent) + PayloadEvents(old(base.View()), token)
  {
    hide ArithmeticEncoder.Run, IsAdaptive, FieldEvents, AfterFields, FieldsFit, CompressionBase.NumberTables,
      JsonTables.Valid;
    if token.Space? {
      WriteWhitespace(base, encoder, token.b);
    } else if token.NumberToken? {
      WriteNumber(base, encoder, token.number);
    }
  }

  // ---------------------------------------------------------------- bytes of strings

  /** The lowest bytes of a value, least significant first. */
  method TakeLowBytes(strcomp: StringCompressor, v: nat, count: nat) returns (ghost items: seq<Item>)
    requires strcomp.Valid() && strcomp.encoder.Valid() && strcomp.bytesInBuffer < MATCH_LIMIT - 1
    modifies strcomp.Repr(), strcomp.encoder
    ensures strcomp.Valid() && strcomp.encoder.Valid() && strcomp.bytesInBuffer < MATCH_LIMIT - 1
    ensures old(StateOf(strcomp)).Valid() && Took(old(StateOf(strcomp)), StateOf(strcomp), items, LowBytes(v, count))
  {
    hide ArithmeticEncoder.Run, StringCompressor.Valid, Took, LowBytes, StringTables.Valid, Bitwise.And;
    strcomp.Facts();
    ghost var start := StateOf(strcomp);
    TookNothing(start);
    NoLowBytes(v, count);
    items := [];
    ghost var taken: seq<byte> := [];
    var value, i := v, 0;
    while i < count
      invariant 0 <= i <= count && taken + LowBytes(value, count - i) == LowBytes(v, count)
      invariant strcomp.Valid() && strcomp.encoder.Valid() && strcomp.bytesInBuffer < MATCH_LIMIT - 1
      invariant Took(start, StateOf(strcomp), items, taken)
    {
      LowByteIsMasked(value);
      items := TakeOneMore(strcomp, Bitwise.And(value, 0xFF), start, items, taken);
      LowBytesStep(value, count - i, taken);
      taken := taken + [value % 256];
      value := value / 256;
      i := i + 1;
    }
    NoLowBytes(value, 0);
    assert taken + [] == taken;
  }

  lemma LowBytesStep(value: nat, count: nat, taken: seq<byte>)
    requires count > 0
    ensures taken + LowBytes(value, count) == (taken + [value % 256]) + LowBytes(value / 256, count - 1)
  {
  }

  lemma NoLowBytes(value: nat, count: nat)
    ensures LowBytes(value, 0) == [] && [] + LowBytes(value, count) == LowBytes(value, count)
  {
  }

  /** The text of a character token, byte by byte. */
  method TakeCharacter(strcomp: StringCompressor, token: Token) returns (ghost items: seq<Item>)
    requires strcomp.Valid() && strcomp.encoder.Valid() && strcomp.bytesInBuffer < MATCH_LIMIT - 1
    requires Canonical(true, token) && !token.Simple?
    modifies strcomp.Repr(), strcomp.encoder
    ensures strcomp.Valid() && strcomp.encoder.Valid() && strcomp.bytesInBuffer < MATCH_LIMIT - 1
    ensures old(StateOf(strcomp)).Valid() && Took(old(StateOf(strcomp)), StateOf(strcomp), items, Text(token))
  {
    hide ArithmeticEncoder.Run, StringCompressor.Valid, Took, LowBytes;
    strcomp.Facts();
    ghost var start := StateOf(strcomp);
    match token {
      case Character(value, length) =>
        items := TakeLowBytes(strcomp, value, length);
      case Escape(b) =>
        items := TakeByte(strcomp, 0x5C);
        ghost var middle := StateOf(strcomp);
        strcomp.Facts();
        var more := TakeByte(strcomp, b);
        TookMore(start, middle, StateOf(strcomp), items, more, [0x5C], [b]);
        items := items + more;
        assert [0x5C] + [b] == Text(token);
      case EscapedCharacter(value, length) =>
        items := TakeByte(strcomp, 0x5C);
        ghost var middle := StateOf(strcomp);
        strcomp.Facts();
        var letter := TakeByte(strcomp, 0x75);
        TookMore(start, middle, StateOf(strcomp), items, letter, [0x5C], [0x75]);
        items := items + letter;
        assert [0x5C] + [0x75] == [0x5C, 0x75];
        middle := StateOf(strcomp);
        strcomp.Facts();
        var digits := TakeLowBytes(strcomp, value, length);
        TookMore(start, middle, StateOf(strcomp), items, digits, [0x5C, 0x75], LowBytes(value, length));
        items := items + digits;
    }
  }

  // ---------------------------------------------------------------- items as chunks

  function Parts(items: seq<Item>): (cs: seq<Chunk>)
    ensures |cs| == |items|
  {
    seq(|items|, i requires 0 <= i < |items| => Part(items[i]))
  }

  /** The machine after pieces of a string's content. */
  function AfterParts(m: Machine, items: seq<Item>): Machine
    requires m.Valid() && StringOk(items)
  {
    var history := ApplyAll(m.history, items);
    m.(strings := AfterAll(m.strings, items), history := history, text := m.text + history[|m.history|..])
  }

  lemma {:induction false} PartsRun(m: Machine, items: seq<Item>)
    requires m.Valid() && m.State().IsString() && StringOk(items)
    ensures ChunksOk(m, Parts(items)) && AfterChunks(m, Parts(items)) == AfterParts(m, items)
    ensures ChunksEvents(m, Parts(items)) == AllEvents(m.strings, items)
    decreases |items|
  {
    hide StringTables.Valid, JsonTables.Valid, Sound, AfterItem, ItemEvents, Apply, ItemOk;
    if items == [] {
      NoItems(m.strings, m.history);
      assert m.text + m.history[|m.history|..] == m.text;
    } else {
      var after := After(m, Part(items[0]));
      PartsRun(after, items[1..]);
      assert Parts(items)[1..] == Parts(items[1..]);
      AddedTwice(m, items);
    }
  }

  lemma AddedTwice(m: Machine, items: seq<Item>)
    requires m.Valid() && StringOk(items) && items != []
    ensures var h := Apply(m.history, items[0]);
            && ApplyAll(m.history, items) == ApplyAll(h, items[1..])
            && m.text + Added(m.history, items[0]) + ApplyAll(h, items[1..])[|h|..] ==
               m.text + ApplyAll(m.history, items)[|m.history|..]
  {
    hide StringTables.Valid, JsonTables.Valid, Sound, Apply;
    var h := Apply(m.history, items[0]);
    var last := ApplyAll(h, items[1..]);
    assert last[..|h|] == h;
    assert h[|m.history|..] + last[|h|..] == last[|m.history|..];
  }

  /** The chunks that a token is coded as: in a string, whatever items come out of the window compressor meanwhile. */
  function TokenChunks(history: seq<byte>, pending: seq<byte>, inString: bool, token: Token): seq<Chunk>
    requires |history| >= WINDOW && |pending| < MATCH_LIMIT - 1
  {
    if !inString then [Outside(token)]
    else if token.Simple? then Parts(FlushItems(history, pending)) + [Close]
    else Parts(WrittenItems(history, pending, Text(token)))
  }

  // ---------------------------------------------------------------- the object

  /** Code a token's kind with the current state's table, go to the next state, and code what follows. */
  method WriteOutside(base: CompressionBase, encoder: Encoder, token: Token, next: State)
    requires base.Valid() && encoder.Valid() && TokenFits(token)
    modifies base.Repr(), encoder
    ensures base.Valid() && encoder.Valid() && base.currentState == next
    ensures var t, s, state := old(base.View()), token.Kind().Symbol(), old(base.currentState);
            && base.View() == AfterPayload(t.Count(state, s), token)
            && encoder.sent == old(encoder.sent) + ([KindEvent(t, state, s)] + PayloadEvents(t.Count(state, s), token))
  {
    hide ArithmeticEncoder.Run, IsAdaptive, JsonTables.Valid, PayloadEvents, AfterPayload, KindEvent,
      JsonTables.Count, CompressionBase.NumberTables;
    base.WriteKind(encoder, token.Kind().Symbol());
    base.Count(token.Kind().Symbol());
    base.currentState := next;
    WritePayload(base, encoder, token);
  }

  function UndoRejected(stack: Stack, current: State): Stack {
    if current.Start? && stack != [] && Top(stack).Value? then ReplaceTop(stack, Start) else stack
  }

  predicate StatesAgree(stack: Stack, current: State) {
    stack != [] && (current == Top(stack) || (current.Start? && Top(stack).Value?))
  }

  lemma UndoneSound(stack: Stack, current: State)
    requires Sound(stack, MAX_STACK) && StatesAgree(stack, current)
    ensures Sound(UndoRejected(stack, current), MAX_STACK) && Top(UndoRejected(stack, current)) == current
  {
    if Top(stack).Value? && current.Start? {
      ReplaceSound(stack, MAX_STACK, Start);
    }
  }

  /** A token accepted after a rejected first token would have been accepted instead of it. */
  lemma AcceptedAnyway(stack: Stack, current: State, kind: Kind)
    requires Sound(stack, MAX_STACK) && StatesAgree(stack, current) && Step(stack, MAX_STACK, kind).ok
    ensures Sound(UndoRejected(stack, current), MAX_STACK)
    ensures Step(UndoRejected(stack, current), MAX_STACK, kind) == Step(stack, MAX_STACK, kind)
  {
    UndoneSound(stack, current);
    var undone := UndoRejected(stack, current);
    if undone != stack {
      assert ReplaceTop(undone, Value) == stack;
      StartLikeValueExactly(undone, MAX_STACK, kind);
    }
  }

  lemma RejectedUndone(stack: Stack, current: State, kind: Kind)
    requires Sound(stack, MAX_STACK) && StatesAgree(stack, current) && !Step(stack, MAX_STACK, kind).ok
    ensures var stack' := Step(stack, MAX_STACK, kind).stack;
            StatesAgree(stack', current) && UndoRejected(stack', current) == UndoRejected(stack, current)
  {
    StepSound(stack, MAX_STACK, kind);
  }

  /** What one call did. The coder has no symbol for a number whose fraction is 65536 or more. */
  datatype TokenOutcome = Written | Rejected | Unencodable

  lemma AllAllocated(strcomp: StringCompressor)
    ensures forall o | o in strcomp.Repr() :: allocated(o)
    ensures strcomp.encoder !in strcomp.Repr()
  {
  }

  class JsonCompressor {
    const base: CompressionBase
    const tokenizer: Tokenizer
    const encoder: Encoder
    const strcomp: StringCompressor
    // all the text coded so far
    ghost var text: seq<byte>

    ghost function Repr(): (r: set<object>)
      ensures {this, encoder} <= r
    {
      {this, encoder} + base.Repr() + tokenizer.Repr() + strcomp.Repr()
    }

    /** The stack the accepted tokens lead to: a rejected first token has no part in it. */
    ghost function Stack(): Stack
      reads base, tokenizer.Repr()
    {
      UndoRejected(tokenizer.jsm.View(), base.currentState)
    }

    ghost function View(): Machine
      reads Repr()
    {
      Machine(base.View(), Stack(), strcomp.Tables(), strcomp.history, text)
    }

    ghost predicate Separate() {
      && strcomp.encoder == encoder && base.Repr() !! strcomp.Repr() && tokenizer.Repr() !! strcomp.Repr()
      && base.Repr() !! tokenizer.Repr()
      && this !in base.Repr() && this !in tokenizer.Repr() && this !in strcomp.Repr()
      && encoder !in base.Repr() && encoder !in tokenizer.Repr() && encoder !in strcomp.Repr()
      && tokenizer.jsm.cells.Length == MAX_STACK
    }

    ghost predicate Valid()
      reads Repr()
    {
      && Separate() && StatesAgree(tokenizer.jsm.View(), base.currentState) && base.Valid() && tokenizer.Valid()
      && strcomp.Valid()
      && strcomp.bytesInBuffer < MATCH_LIMIT - 1 && (!base.currentState.IsString() ==> strcomp.bytesInBuffer == 0)
      && text + strcomp.Pending() == tokenizer.input[..tokenizer.position]
    }

    constructor (input: seq<byte>, encoder: Encoder, strcomp: StringCompressor)
      requires strcomp.Valid() && strcomp.encoder == encoder && strcomp.bytesInBuffer == 0
      ensures Valid() && fresh(base.Repr()) && fresh(tokenizer.Repr()) && this.encoder == encoder
              && this.strcomp == strcomp
      ensures tokenizer.input == input && tokenizer.position == 0 && tokenizer.jsm.View() == INITIAL_STACK
      ensures View() == Machine(InitialJsonTables(), INITIAL_STACK, strcomp.Tables(), strcomp.history, [])
    {
      hide IsAdaptive, InitialJsonTables, StringCompressor.Valid, JsonTables.Valid, StringTables.Valid,
        CompressionBase.Valid, CompressionBase.View, StringCompressor.Pending, StringCompressor.Tables, Sound,
        Rooted, InitialTables, RingBuffers.RingBuffer.View, ArithmeticEncoder.Run;
      strcomp.Facts();
      AllAllocated(strcomp);
      base := new CompressionBase();
      tokenizer := new Tokenizer(input);
      this.encoder := encoder;
      this.strcomp := strcomp;
      text := [];
      new;
      assert Separate();
    }

    lemma Facts()
      requires Valid()
      ensures View().Valid() && View().State() == base.currentState && StateOf(strcomp).Valid()
    {
      hide JsonTables.Valid, StringTables.Valid, Sound;
      UndoneSound(tokenizer.jsm.View(), base.currentState);
      strcomp.Facts();
    }

    /** The tokenizer has just accepted a token; nothing of it is coded yet. */
    ghost predicate Accepted(m: Machine, token: Token)
      reads Repr()
    {
      && Separate() && base.Valid() && tokenizer.Valid() && strcomp.Valid() && encoder.Valid()
      && m.Valid() && m.tables == base.View() && m.strings == strcomp.Tables() && m.history == strcomp.history
      && m.text == text
      && m.State() == base.currentState
      && Step(m.stack, MAX_STACK, token.Kind()) == JsonStates.Outcome(true, tokenizer.jsm.View())
      && Canonical(m.State().IsString(), token)
      && strcomp.bytesInBuffer < MATCH_LIMIT - 1 && (!base.currentState.IsString() ==> strcomp.bytesInBuffer == 0)
      && text + strcomp.Pending() + Text(token) == tokenizer.input[..tokenizer.position]
    }

    lemma Known()
      ensures forall o | o in base.Repr() :: allocated(o)
      ensures forall o | o in tokenizer.Repr() :: allocated(o)
      ensures forall o | o in strcomp.Repr() :: allocated(o)
    {
    }

    /** From machine `m` on, the chunks were coded, and nothing else. */
    ghost predicate Coded(m: Machine, chunks: seq<Chunk>, sent: seq<Event>)
      reads Repr()
    {
      && Valid() && encoder.Valid() && m.Valid() && ChunksOk(m, chunks)
      && View() == AfterChunks(m, chunks) && encoder.sent == sent + ChunksEvents(m, chunks)
    }

    /** From machine `m` on, the chunks and the end of the document were coded. */
    ghost predicate Ended(m: Machine, chunks: seq<Chunk>, sent: seq<Event>)
      reads Repr()
    {
      && Valid() && encoder.Valid() && m.Valid() && ChunksOk(m, chunks) && base.currentState.Start?
      && View() == Finished(AfterChunks(m, chunks)) && encoder.sent == sent + DocumentEvents(m, chunks)
      && AfterChunks(m, chunks).stack == m.stack && tokenizer.jsm.View() == INITIAL_STACK
    }

    /** The content of a string that the document stops in is ended, but not the document. */
    ghost predicate ContentEnded(m: Machine, chunks: seq<Chunk>, sent: seq<Event>)
      reads Repr()
    {
      && Valid() && encoder.Valid() && m.Valid() && ChunksOk(m, chunks) && strcomp.bytesInBuffer == 0
      && var p := AfterChunks(m, chunks);
      && p.stack == m.stack && p.tables == m.tables
      && View() == p.(strings := Finished(p).strings)
      && encoder.sent == sent + (ChunksEvents(m, chunks) + ContentEnd(p))
    }

    method PutOutside(token: Token, ghost m: Machine) returns (ghost chunks: seq<Chunk>)
      requires Accepted(m, token) && !base.currentState.IsString() && TokenFits(token)
      modifies this`text, base.Repr(), encoder
      ensures Coded(m, chunks, old(encoder.sent)) && chunks == [Outside(token)]
    {
      hide Encoder.Valid, ChunksOk, ChunksEvents, AfterChunks, CompressionBase.Repr, CompressionBase.View,
        CompressionBase.Valid, Tokenizer.Repr, StringCompressor.Repr, ArithmeticEncoder.Run, IsAdaptive,
        JsonTables.Valid, PayloadEvents, AfterPayload, KindEvent, JsonTables.Count, StringCompressor.Valid, Step,
        Canonical, Text, TokenFits;
      chunks := [Outside(token)];
      Known();
      StackNotEmpty(tokenizer);
      OneChunk(m, Outside(token));
      strcomp.Facts();
      WriteOutside(base, encoder, token, tokenizer.jsm.CurrentState());
      text := text + Text(token);
    }

    method PutInside(token: Token, ghost m: Machine) returns (ghost chunks: seq<Chunk>)
      requires Accepted(m, token) && base.currentState.IsString() && !token.Simple?
      modifies this`text, strcomp.Repr(), encoder
      ensures Coded(m, chunks, old(encoder.sent))
      ensures |old(strcomp.history)| >= WINDOW && |old(strcomp.Pending())| < MATCH_LIMIT - 1
              && chunks == Parts(WrittenItems(old(strcomp.history), old(strcomp.Pending()), Text(token)))
    {
      hide Canonical, ItemOk, Encoder.Valid, ChunksOk, ChunksEvents, AfterChunks, CompressionBase.Repr,
        CompressionBase.View, CompressionBase.Valid, Tokenizer.Repr, StringCompressor.Repr, ArithmeticEncoder.Run,
        IsAdaptive, JsonTables.Valid, StringTables.Valid, Sound, StringCompressor.Valid, Step, Text, ApplyAll,
        AllEvents, AfterAll, WrittenItems, AfterWrites;
      strcomp.Facts();
      InsideKeepsStack(m, token);
      Known();
      ghost var pending := strcomp.Pending();
      ghost var items := TakeCharacter(strcomp, token);
      chunks := Parts(items);
      PartsRun(m, items);
      MovedText(m, items, pending, strcomp.Pending(), Text(token));
      text := AfterParts(m, items).text;
    }

    method PutClose(ghost m: Machine) returns (ghost chunks: seq<Chunk>)
      requires Accepted(m, Simple(StringDelimiter)) && base.currentState.IsString()
      modifies this`text, base.Repr(), strcomp.Repr(), encoder
      ensures Coded(m, chunks, old(encoder.sent))
      ensures |old(strcomp.history)| >= WINDOW && |old(strcomp.Pending())| < MATCH_LIMIT
              && chunks == Parts(FlushItems(old(strcomp.history), old(strcomp.Pending()))) + [Close]
    {
      hide Canonical, ItemOk, Encoder.Valid, ChunksOk, ChunksEvents, AfterChunks, CompressionBase.Repr,
        CompressionBase.View, CompressionBase.Valid, Tokenizer.Repr, StringCompressor.Repr, ArithmeticEncoder.Run,
        IsAdaptive, JsonTables.Valid, StringTables.Valid, Sound, StringCompressor.Valid, Step, KindEvent,
        JsonTables.Count, ApplyAll, AllEvents, AfterAll, ItemEvents, AfterItem, Apply, AfterParts, FlushItems;
      StackNotEmpty(tokenizer);
      Known();
      ghost var items := EndContent(strcomp, m);
      CloseRun(m, items);
      chunks := Parts(items) + [Close];
      WriteOutside(base, encoder, Simple(StringDelimiter), tokenizer.jsm.CurrentState());
      text := AfterParts(m, items).text + [0x22];
    }

    /** Read one token and code it. Nothing is coded, and no byte consumed, if the tokenizer refuses it. */
    method ProcessNextToken() returns (outcome: TokenOutcome, ghost chunks: seq<Chunk>)
      requires Valid() && encoder.Valid() && tokenizer.position < |tokenizer.input|
      modifies Repr()
      ensures tokenizer.Valid()
      ensures var parsed := Parse(old(tokenizer.jsm.View()), MAX_STACK, tokenizer.input[old(tokenizer.position)..]);
              && (outcome.Rejected? <==> parsed.NoToken?)
              && (outcome.Unencodable? <==>
                    parsed.Parsed? && parsed.token.NumberToken? && parsed.token.number.fractionPart >= 0x1_0000)
              && (outcome.Rejected? ==> tokenizer.position == old(tokenizer.position) && chunks == [])
              && (outcome.Written? ==>
                    tokenizer.position == old(tokenizer.position) + parsed.length && parsed.length > 0)
              && tokenizer.jsm.View() == parsed.stack
      ensures !outcome.Unencodable? ==> Coded(old(View()), chunks, old(encoder.sent))
      ensures |old(strcomp.history)| >= WINDOW && |old(strcomp.Pending())| < MATCH_LIMIT - 1
      ensures var parsed := Parse(old(tokenizer.jsm.View()), MAX_STACK, tokenizer.input[old(tokenizer.position)..]);
              outcome.Written? ==>
                chunks == TokenChunks(old(strcomp.history), old(strcomp.Pending()), old(base.currentState.IsString()),
                                      parsed.token)
    {
      hide ChunksOk, ChunksEvents, AfterChunks, CompressionBase.Repr, CompressionBase.View, CompressionBase.Valid,
        Tokenizer.Repr, StringCompressor.Repr, ArithmeticEncoder.Run, IsAdaptive, JsonTables.Valid,
        StringTables.Valid, Sound, StringCompressor.Valid, Step, Text, Parse, Canonical, FlushItems, WrittenItems,
        Parts;
      Known();
      Facts();
      strcomp.Facts();
      StackNotEmpty(tokenizer);
      ghost var m, start, stack, rest :=
        View(), tokenizer.position, tokenizer.jsm.View(), tokenizer.input[tokenizer.position..];
      var found := tokenizer.ParseNext();
      if found.None? {
        outcome, chunks := TokenOutcome.Rejected, [];
        RefusedUndone(stack, base.currentState, rest);
        NoChunks(m);
      } else {
        var token := found.value;
        AcceptedText(stack, base.currentState, rest);
        ConsumedText(tokenizer.input, start, |Text(token)|);
        if token.NumberToken? && token.number.fractionPart >= 0x1_0000 {
          outcome, chunks := Unencodable, [];
        } else {
          outcome := Written;
          FitsBelow(base.currentState.IsString(), token);
          if !base.currentState.IsString() {
            chunks := PutOutside(token, m);
          } else if token.Simple? {
            chunks := PutClose(m);
          } else {
            chunks := PutInside(token, m);
          }
        }
      }
    }

    /** A document that stops in the middle of a string: the string's content is ended first. */
    method FinishContent() returns (ghost chunks: seq<Chunk>)
      requires Valid() && encoder.Valid()
      modifies this`text, strcomp.Repr(), encoder
      ensures ContentEnded(old(View()), chunks, old(encoder.sent))
      ensures |old(strcomp.history)| >= WINDOW && |old(strcomp.Pending())| < MATCH_LIMIT
              && chunks == if old(base.currentState.IsString())
                           then Parts(FlushItems(old(strcomp.history), old(strcomp.Pending()))) else []
    {
      hide Encoder.Valid, ChunksOk, ChunksEvents, AfterChunks, CompressionBase.Repr, CompressionBase.View,
        CompressionBase.Valid, Tokenizer.Repr, StringCompressor.Repr, ArithmeticEncoder.Run, IsAdaptive,
        JsonTables.Valid, StringTables.Valid, Sound, StringCompressor.Valid, AfterParts, ItemEvents, AfterItem,
        AllEvents, Parts, Machine.Valid, Tokenizer.Valid, FlushItems;
      Known();
      Facts();
      strcomp.Facts();
      ghost var m := View();
      if base.currentState.IsString() {
        ghost var items := EndContent(strcomp, m);
        chunks := Parts(items);
        FinishRun(m, items);
        text := AfterParts(m, items).text;
        strcomp.Facts();
      } else {
        chunks := [];
        NoChunks(m);
      }
    }

    /** The end marker, which is not counted; what follows is a new document. */
    method EndDocument(ghost m: Machine, ghost chunks: seq<Chunk>, ghost sent: seq<Event>)
      requires ContentEnded(m, chunks, sent)
      modifies base.Repr(), tokenizer.jsm, tokenizer.jsm.cells, encoder
      ensures Ended(m, chunks, sent) && tokenizer.position == old(tokenizer.position)
    {
      hide ChunksOk, ChunksEvents, AfterChunks, Encoder.Valid, CompressionBase.Repr, CompressionBase.View,
        CompressionBase.Valid, Tokenizer.Repr, StringCompressor.Repr, KindEvent, ContentEnd, ArithmeticEncoder.Run,
        IsAdaptive, JsonTables.Valid, StringTables.Valid, Sound, StringCompressor.Valid, AfterItem, Machine.Valid,
        JsonStateMachine.Valid;
      Known();
      Facts();
      strcomp.Facts();
      base.WriteKind(encoder, END);
      base.Reset();
      tokenizer.Reset();
      assert Stack() == INITIAL_STACK;
    }

    /** End the document, wherever it stands. */
    method Finalize() returns (ghost chunks: seq<Chunk>)
      requires Valid() && encoder.Valid()
      modifies Repr()
      ensures Ended(old(View()), chunks, old(encoder.sent))
      ensures text == tokenizer.input[..tokenizer.position] && tokenizer.position == old(tokenizer.position)
    {
      hide ChunksOk, ChunksEvents, AfterChunks, Encoder.Valid, CompressionBase.Repr, CompressionBase.View,
        CompressionBase.Valid, Tokenizer.Repr, StringCompressor.Repr, ContentEnded, StringCompressor.Valid,
        UndoRejected, FinishEvents, Finished;
      Known();
      chunks := FinishContent();
      EndDocument(old(View()), chunks, old(encoder.sent));
      AllText();
    }

    lemma AllText()
      requires Valid() && base.currentState.Start?
      ensures text == tokenizer.input[..tokenizer.position]
    {
      strcomp.Facts();
      assert text + strcomp.Pending() == text;
    }
  }

  lemma NoChunks(m: Machine)
    requires m.Valid()
    ensures ChunksOk(m, []) && AfterChunks(m, []) == m && ChunksEvents(m, []) == []
  {
    hide Machine.Valid;
  }

  lemma FinishRun(m: Machine, items: seq<Item>)
    requires m.Valid() && m.State().IsString() && StringOk(items)
    ensures var chunks, p := Parts(items), AfterParts(m, items);
            && p.Valid() && ChunksOk(m, chunks) && AfterChunks(m, chunks) == p
            && p.tables == m.tables && p.stack == m.stack
            && ChunksEvents(m, chunks) + ContentEnd(p) ==
               AllEvents(m.strings, items) + ItemEvents(p.strings, EndOfString)
  {
    hide JsonTables.Valid, StringTables.Valid, Sound, ApplyAll, AllEvents, AfterAll, ItemEvents, AfterItem;
    PartsRun(m, items);
  }

  lemma ConsumedText(input: seq<byte>, start: nat, length: nat)
    requires start + length <= |input|
    ensures input[..start + length] == input[..start] + input[start..][..length]
  {
  }

  lemma FitsBelow(inString: bool, token: Token)
    requires Canonical(inString, token) && !(token.NumberToken? && token.number.fractionPart >= 0x1_0000)
    ensures TokenFits(token) && (inString && token.Simple? ==> token == Simple(StringDelimiter))
  {
    hide NumberOk, FieldsFit;
    if token.NumberToken? {
      NumberFitsExactly(token.number);
    }
  }

  lemma RefusedUndone(stack: Stack, current: State, s: seq<byte>)
    requires Sound(stack, MAX_STACK) && StatesAgree(stack, current) && s != [] && Parse(stack, MAX_STACK, s).NoToken?
    ensures var stack' := Parse(stack, MAX_STACK, s).stack;
            StatesAgree(stack', current) && UndoRejected(stack', current) == UndoRejected(stack, current)
  {
    hide Sound, Scan, Step;
    var scanned := Scan(Top(stack).IsString(), s);
    if scanned.Found? {
      RejectedUndone(stack, current, scanned.token.Kind());
    }
  }

  /** An accepted token is the text it consumed, and fits the stack that the accepted tokens alone lead to. */
  lemma AcceptedText(stack: Stack, current: State, s: seq<byte>)
    requires Sound(stack, MAX_STACK) && StatesAgree(stack, current) && s != [] && Parse(stack, MAX_STACK, s).Parsed?
    ensures Sound(UndoRejected(stack, current), MAX_STACK)
    ensures var r := Parse(stack, MAX_STACK, s);
            && 0 < r.length <= |s| && |Text(r.token)| == r.length && Text(r.token) == s[..r.length]
            && Canonical(current.IsString(), r.token)
            && Step(UndoRejected(stack, current), MAX_STACK, r.token.Kind()) == JsonStates.Outcome(true, r.stack)
  {
    hide Sound, Step, Text, Canonical, Parse, UndoRejected;
    ParsePrintsBack(stack, MAX_STACK, s);
    AcceptedAnyway(stack, current, Parse(stack, MAX_STACK, s).token.Kind());
  }

  /** Code what is pending of a string's content, and its end. */
  method EndContent(strcomp: StringCompressor, ghost m: Machine) returns (ghost items: seq<Item>)
    requires strcomp.Valid() && strcomp.encoder.Valid() && m.Valid() && m.strings == strcomp.Tables()
             && m.history == strcomp.history
    modifies strcomp.Repr(), strcomp.encoder
    ensures strcomp.Valid() && strcomp.encoder.Valid() && strcomp.bytesInBuffer == 0
    ensures |old(strcomp.history)| >= WINDOW && |old(strcomp.Pending())| < MATCH_LIMIT
            && items == FlushItems(old(strcomp.history), old(strcomp.Pending()))
    ensures StringOk(items) && AfterParts(m, items).Valid()
            && AfterParts(m, items).text == m.text + old(strcomp.Pending())
    ensures var p := AfterParts(m, items);
            && strcomp.history == p.history && strcomp.Tables() == AfterItem(p.strings, EndOfString)
            && strcomp.encoder.sent == old(strcomp.encoder.sent)
               + (AllEvents(m.strings, items) + ItemEvents(p.strings, EndOfString))
  {
    hide ArithmeticEncoder.Run, JsonTables.Valid, StringTables.Valid, Sound, StringCompressor.Valid, ApplyAll,
      AllEvents, AfterAll, ItemEvents, AfterItem, Apply, FlushItems;
    strcomp.Facts();
    ghost var pending := strcomp.Pending();
    items := strcomp.Flush();
    AppendItem(m.strings, m.history, items, EndOfString);
    assert strcomp.history + [] == m.history + pending + [];
    MovedText(m, items, pending, [], []);
    assert AfterParts(m, items).text + [] == m.text + pending + [];
  }

  /** The pieces of a string's content and its closing delimiter. */
  lemma CloseRun(m: Machine, items: seq<Item>)
    requires m.Valid() && m.State().IsString() && StringOk(items)
    ensures AfterParts(m, items).Valid()
    ensures var chunks, p, s := Parts(items) + [Close], AfterParts(m, items), StringDelimiter.Symbol();
            && ChunksOk(m, chunks)
            && AfterChunks(m, chunks) ==
               Machine(m.tables.Count(m.State(), s), Step(m.stack, MAX_STACK, StringDelimiter).stack,
                                                 AfterItem(p.strings, EndOfString), p.history, p.text + [0x22])
            && ChunksEvents(m, chunks) ==
               AllEvents(m.strings, items)
                 + (ItemEvents(p.strings, EndOfString) + [KindEvent(m.tables, m.State(), s)])
  {
    hide JsonTables.Valid, StringTables.Valid, Sound, Step, KindEvent, JsonTables.Count, ApplyAll, AllEvents,
      AfterAll, ItemEvents, AfterItem;
    PartsRun(m, items);
    OneChunk(AfterParts(m, items), Close);
    ChunksCompose(m, Parts(items), [Close]);
  }

  lemma StackNotEmpty(tokenizer: Tokenizer)
    requires tokenizer.Valid()
    ensures tokenizer.jsm.View() != []
  {
  }

  lemma InsideKeepsStack(m: Machine, token: Token)
    requires m.Valid() && m.State().IsString() && Canonical(true, token) && !token.Simple?
    ensures Step(m.stack, MAX_STACK, token.Kind()) == JsonStates.Outcome(true, m.stack) && m.stack != []
  {
  }

  lemma MovedText(m: Machine, items: seq<Item>, pending: seq<byte>, left: seq<byte>, bytes: seq<byte>)
    requires m.Valid() && StringOk(items) && ApplyAll(m.history, items) + left == m.history + pending + bytes
    ensures AfterParts(m, items).text + left == m.text + pending + bytes
  {
    hide ApplyAll, AfterAll, JsonTables.Valid, StringTables.Valid, Sound;
    assert m.history + pending + bytes == m.history + (pending + bytes);
    SplitHistory(m.history, ApplyAll(m.history, items), left, pending + bytes);
    assert m.text + ApplyAll(m.history, items)[|m.history|..] + left == m.text + (pending + bytes);
  }

  lemma SplitHistory(h: seq<byte>, h': seq<byte>, left: seq<byte>, rest: seq<byte>)
    requires |h| <= |h'| && h' + left == h + rest
    ensures h'[|h|..] + left == rest
  {
    assert h'[|h|..] + left == (h' + left)[|h|..];
  }
}
