/** The JSON decompressor (json_decompressor.c). */
module JsonDecompressor {
  import ByteSinks
  import opened Common
  import opened Frequencies
  import opened ArithmeticDecoder
  import UintCodec
  import RingBuffers
  import opened StringCodec
  import opened StringDecompressor
  import opened JsonStates
  import opened JsonTokens
  import opened JsonCodec
  import opened JsonStream
  import opened JsonDocuments
  import opened JsonCompressionBase

  // ---------------------------------------------------------------- numbers

  /** One field of a number, if it is present; `r` is what has been read so far. */
  method ReadNumberField(base: CompressionBase, decoder: Decoder, k: nat, present: bool, ghost r: FieldsRead)
    returns (value: nat)
    requires base.Separate() && k < FIELDS && r.Ok() && r.values[k] == 0
    requires base.NumberTables() == r.uints && decoder.State() == r.decoder
    modifies base.Field(k), decoder
    ensures var r' := ReadField(r, present, k);
            r'.values == r.values[k := value] && base.NumberTables() == r'.uints && decoder.State() == r'.decoder
  {
    hide Read, IsAdaptive, CompressionBase.Field, CompressionBase.NumberTables, UintCodec.ReadUint;
    value := 0;
    var tables := base.Field(k);
    base.FieldsDiffer();
    base.AllFields();
    assert FieldTableOk(k, r.uints[k]);
    if present {
      value := UintCodec.ReadUintFrom(tables, decoder);
      base.OneFieldChanged(r.uints, k);
    }
  }

  lemma StillZero(r: FieldsRead, present: bool, k: nat, value: nat)
    requires r.Ok() && k < FIELDS && ReadField(r, present, k).values == r.values[k := value]
    ensures forall j | 0 <= j < FIELDS && j != k :: ReadField(r, present, k).values[j] == r.values[j]
    ensures ReadField(r, present, k).values[k] == value
  {
    hide ReadField, FieldTablesOk, ValueOk;
  }

  lemma FiveFields(r: FieldsRead, p: seq<bool>)
    requires r.Ok() && |p| == FIELDS
    ensures ReadFields(r, p, INTEGER) ==
            var r3 := ReadField(ReadField(r, p[INTEGER], INTEGER), p[FRACTION_ZEROES], FRACTION_ZEROES);
            var r5 := ReadField(ReadField(r3, p[FRACTION], FRACTION), p[EXPONENT_ZEROES], EXPONENT_ZEROES);
            ReadField(r5, p[EXPONENT], EXPONENT)
  {
    hide ReadField, FieldsRead.Ok;
    var r2 := ReadField(r, p[INTEGER], INTEGER);
    var r3 := ReadField(r2, p[FRACTION_ZEROES], FRACTION_ZEROES);
    var r4 := ReadField(r3, p[FRACTION], FRACTION);
    var r5 := ReadField(r4, p[EXPONENT_ZEROES], EXPONENT_ZEROES);
    assert ReadFields(r5, p, EXPONENT) == ReadFields(ReadField(r5, p[EXPONENT], EXPONENT), p, FIELDS);
  }

  /** The fields after the flags. */
  method ReadRestOfNumber(base: CompressionBase, decoder: Decoder, flags: NumberFlags, ghost r1: FieldsRead)
    returns (n: JsonNumber)
    requires base.Separate() && r1.Ok() && forall k | INTEGER <= k < FIELDS :: r1.values[k] == 0
    requires base.NumberTables() == r1.uints && decoder.State() == r1.decoder
    modifies base.Repr() - {base}, decoder
    ensures var r := ReadFields(r1, Presence(flags), INTEGER);
            && r.values[FRACTION_ZEROES] < 256 && r.values[EXPONENT_ZEROES] < 256
            && n == Assembled(flags, r.values) && base.NumberTables() == r.uints && decoder.State() == r.decoder
  {
    hide ReadField, FieldsRead.Ok, CompressionBase.NumberTables, Decoder.State, FieldTablesOk, ReadFields;
    var p := Presence(flags);
    FiveFields(r1, p);
    var integer := ReadNumberField(base, decoder, INTEGER, p[INTEGER], r1);
    ghost var r2 := ReadField(r1, p[INTEGER], INTEGER);
    StillZero(r1, p[INTEGER], INTEGER, integer);
    var fractionZeroes := ReadNumberField(base, decoder, FRACTION_ZEROES, p[FRACTION_ZEROES], r2);
    ghost var r3 := ReadField(r2, p[FRACTION_ZEROES], FRACTION_ZEROES);
    StillZero(r2, p[FRACTION_ZEROES], FRACTION_ZEROES, fractionZeroes);
    var fraction := ReadNumberField(base, decoder, FRACTION, p[FRACTION], r3);
    ghost var r4 := ReadField(r3, p[FRACTION], FRACTION);
    StillZero(r3, p[FRACTION], FRACTION, fraction);
    var exponentZeroes := ReadNumberField(base, decoder, EXPONENT_ZEROES, p[EXPONENT_ZEROES], r4);
    ghost var r5 := ReadField(r4, p[EXPONENT_ZEROES], EXPONENT_ZEROES);
    StillZero(r4, p[EXPONENT_ZEROES], EXPONENT_ZEROES, exponentZeroes);
    var exponent := ReadNumberField(base, decoder, EXPONENT, p[EXPONENT], r5);
    ghost var r6 := ReadField(r5, p[EXPONENT], EXPONENT);
    StillZero(r5, p[EXPONENT], EXPONENT, exponent);
    ByteFields(r6);
    n := JsonNumber(flags, integer, fractionZeroes, fraction, exponentZeroes, exponent);
  }

  method ReadNumber(base: CompressionBase, decoder: Decoder) returns (n: JsonNumber)
    requires base.Valid() && decoder.State().Valid()
    modifies base.Repr() - {base}, decoder
    ensures decoder.State().Valid() && base.Valid()
    ensures var r := ReadNumberFields(old(base.NumberTables()), old(decoder.State()));
            n == r.number && base.View() == old(base.View()).(uints := r.uints) && decoder.State() == r.decoder
  {
    hide ReadField, CompressionBase.NumberTables, Decoder.State, FieldTablesOk, ReadFields, IsAdaptive, FlagsOf,
      DecoderState.Valid, ValueOk;
    ghost var r0 := NothingRead(base.NumberTables(), decoder.State());
    NothingReadOk(base.NumberTables(), decoder.State());
    var flagByte := ReadNumberField(base, decoder, FLAGS, true, r0);
    ghost var r1 := ReadField(r0, true, FLAGS);
    ByteFields(r1);
    StillZero(r0, true, FLAGS, flagByte);
    n := ReadRestOfNumber(base, decoder, FlagsOf(flagByte), r1);
  }

  // ---------------------------------------------------------------- the object

  lemma AllAllocated(strdecomp: StringDecompressor)
    requires strdecomp.Valid()
    ensures forall o | o in strdecomp.Repr() :: allocated(o)
    ensures strdecomp.Tables().Valid() && strdecomp.lookback.View().Valid()
  {
    hide StringTables.Valid;
  }

  class JsonDecompressor {
    const base: CompressionBase
    const jsm: JsonStateMachine
    const decoder: Decoder
    const strdecomp: StringDecompressor
    const writer: ByteSinks.ByteSink

    ghost function View(): Side
      reads base.Repr(), jsm, jsm.cells, strdecomp.Repr(), strdecomp.lookback, decoder
    {
      Side(base.View(), base.currentState, jsm.View(), strdecomp.Tables(), strdecomp.lookback.View(), decoder.State())
    }

    ghost predicate Separate() {
      && strdecomp.decoder == decoder && strdecomp.writer == writer && jsm.cells.Length == MAX_STACK
      && base.Repr() !! strdecomp.Repr() && decoder !in base.Repr() && decoder !in strdecomp.Repr()
      && writer !in base.Repr() && writer !in strdecomp.Repr()
      && jsm !in base.Repr() && jsm !in strdecomp.Repr() && jsm.cells !in base.Repr() && jsm.cells !in strdecomp.Repr()
    }

    ghost predicate Valid()
      reads base.Repr(), jsm, jsm.cells, strdecomp.Repr(), decoder
    {
      && Separate() && base.Valid() && jsm.Valid() && strdecomp.Valid() && View().Valid()
    }

    constructor (decoder: Decoder, strdecomp: StringDecompressor, writer: ByteSinks.ByteSink)
      requires strdecomp.Valid() && strdecomp.decoder == decoder && strdecomp.writer == writer
               && decoder.State().Valid()
      ensures Valid() && fresh(base.Repr()) && fresh(jsm) && fresh(jsm.cells) && this.decoder == decoder
              && this.strdecomp == strdecomp && this.writer == writer
      ensures View() == Side(InitialJsonTables(), Start, INITIAL_STACK, strdecomp.Tables(), strdecomp.lookback.View(),
              decoder.State())
    {
      hide IsAdaptive, InitialJsonTables, StringTables.Valid, JsonTables.Valid, CompressionBase.Valid,
        CompressionBase.View, RingBuffers.RingBuffer.View, StringDecompressor.Tables, StringDecompressor.Valid,
        DecoderState.Valid, Decoder.State, Sound, Rooted;
      AllAllocated(strdecomp);
      base := new CompressionBase();
      jsm := new JsonStateMachine(MAX_STACK);
      this.decoder, this.strdecomp, this.writer := decoder, strdecomp, writer;
      new;
      assert Separate();
    }

    lemma Known()
      ensures forall o | o in base.Repr() :: allocated(o)
      ensures forall o | o in strdecomp.Repr() :: allocated(o)
    {
    }

    /** The effect of one step: what it reports, the new state, and the bytes written. */
    ghost predicate Did(r: SideRead, report: Report, before: seq<byte>)
      reads base.Repr(), jsm, jsm.cells, strdecomp.Repr(), decoder, writer
    {
      Valid() && report == r.report && View() == r.side && writer.bytes == before + r.written
    }

    /** What follows a token's kind. */
    method ReadPayloadOf(kind: Kind) returns (token: Token)
      requires Separate() && base.Valid() && decoder.State().Valid()
      modifies base`whitespaces, base.Repr() - {base}, decoder
      ensures base.Valid() && decoder.State().Valid()
      ensures var r := ReadPayload(old(base.View()), kind, old(decoder.State()));
              token == r.token && base.View() == r.tables && decoder.State() == r.decoder
    {
      hide Read, Low, AllPositive, ReadNumberFields, Bump, FieldTablesOk;
      match kind {
        case Whitespace =>
          AdaptiveDecodable(base.whitespaces);
          var s := decoder.ReadSymbol(base.whitespaces);
          base.whitespaces := Bump(base.whitespaces, s);
          token := Space(SPACES[s]);
        case Number =>
          var number := ReadNumber(base, decoder);
          token := NumberToken(number);
        case _ =>
          token := Simple(kind);
      }
    }

    /** Whatever token kind the stream holds, if the grammar allows it here. */
    method UpdateState(kind: Kind) returns (ok: bool)
      requires Separate() && base.Valid() && jsm.Valid()
      modifies jsm, jsm.cells, base`currentState
      ensures base.Valid() && jsm.Valid() && base.View() == old(base.View())
      ensures var next := Step(old(jsm.View()), MAX_STACK, kind);
              && ok == next.ok && jsm.View() == next.stack && next.stack != []
              && base.currentState == if next.ok then Top(next.stack) else old(base.currentState)
    {
      hide IsAdaptive, Step, JsonTables.Valid;
      ok := jsm.ProcessToken(kind);
      if ok {
        base.currentState := jsm.CurrentState();
      }
    }

    lemma NothingMore(bytes: seq<byte>)
      ensures bytes + [] == bytes
    {
    }

    /** Read one piece of a string, or its end: the closing delimiter or the end of the document. */
    method ReadString() returns (report: Report)
      requires Valid() && base.currentState.IsString()
      modifies base.Repr(), jsm, jsm.cells, strdecomp.Repr(), decoder, writer
      ensures Did(ReadInside(old(View())), report, old(writer.bytes))
    {
      hide Read, IsAdaptive, ReadItem, Step, StringTables.Valid, JsonTables.Valid, Sound, JsonTables.Count,
        CloseString, CompressionBase.Valid, CompressionBase.View, CompressionBase.Repr, StringDecompressor.Repr,
        StringDecompressor.Valid;
      Known();
      NothingMore(writer.bytes);
      var more := strdecomp.ReadNext();
      if more {
        report := More;
      } else {
        report := ReadClosing();
      }
    }

    lemma DelimiterAccepted(x: Side)
      requires x.Valid() && x.current.IsString()
      ensures Step(x.stack, MAX_STACK, StringDelimiter).ok
    {
    }

    /** What follows a string's content. */
    method ReadClosing() returns (report: Report)
      requires Valid() && base.currentState.IsString()
      modifies base.Repr(), jsm, jsm.cells, decoder, writer
      ensures Did(CloseString(old(View())), report, old(writer.bytes))
    {
      hide DelimiterRead, Read, IsAdaptive, Step, StringTables.Valid, Sound, JsonTables.Count, JsonTables.Valid,
        CompressionBase.Valid, CompressionBase.View, CompressionBase.Repr, StringDecompressor.Repr,
        StringDecompressor.Valid;
      Known();
      NothingMore(writer.bytes);
      var s := base.ReadKind(decoder);
      base.Count(s);
      if s == END {
        report := Ended;
      } else if !KindOf(s).StringDelimiter? {
        report := Illegal;
      } else {
        report := ReadDelimiter();
      }
    }

    method ReadDelimiter() returns (report: Report)
      requires Valid() && base.currentState.IsString()
      modifies jsm, jsm.cells, base`currentState, writer
      ensures Did(DelimiterRead(old(View())), report, old(writer.bytes))
    {
      hide Read, IsAdaptive, Step, StringTables.Valid, Sound, JsonTables.Count, JsonTables.Valid,
        CompressionBase.Valid, CompressionBase.View, CompressionBase.Repr, StringDecompressor.Repr,
        StringDecompressor.Valid;
      Known();
      DelimiterAccepted(View());
      var accepted := UpdateState(StringDelimiter);
      assert accepted;
      writer.WriteByte(0x22);
      report := More;
      assert View() == DelimiterRead(old(View())).side;
    }

    /** What follows a kind, and the text of the token. */
    method PrintToken(kind: Kind)
      requires Separate() && base.Valid() && decoder.State().Valid()
      modifies base.Repr(), decoder, writer
      ensures base.Valid() && decoder.State().Valid() && base.currentState == old(base.currentState)
      ensures var r := ReadPayload(old(base.View()), kind, old(decoder.State()));
              base.View() == r.tables && decoder.State() == r.decoder
                && writer.bytes == old(writer.bytes) + Text(r.token)
    {
      hide IsAdaptive, JsonTables.Valid, ReadPayload, Text, CompressionBase.Valid, CompressionBase.View,
        CompressionBase.Repr, DecoderState.Valid, Decoder.State, StringDecompressor.Repr;
      Known();
      var token := ReadPayloadOf(kind);
      var count := Detokenize(writer, token);
    }

    method ReadTokenOf(kind: Kind) returns (report: Report)
      requires Valid()
      modifies base.Repr(), jsm, jsm.cells, decoder, writer
      ensures Did(ReadToken(old(View()), kind), report, old(writer.bytes))
    {
      hide Read, IsAdaptive, Step, StringTables.Valid, Sound, JsonTables.Valid, ReadPayload, Text,
        CompressionBase.Valid, CompressionBase.View, CompressionBase.Repr, StringDecompressor.Repr,
        StringDecompressor.Valid, DecoderState.Valid, Decoder.State, JsonStateMachine.Valid;
      Known();
      NothingMore(writer.bytes);
      var accepted := UpdateState(kind);
      if !accepted {
        report := Illegal;
      } else {
        PrintToken(kind);
        report := More;
      }
      assert View() == ReadToken(old(View()), kind).side;
    }

    method ReadNonstring() returns (report: Report)
      requires Valid() && !base.currentState.IsString()
      modifies base.Repr(), jsm, jsm.cells, decoder, writer
      ensures Did(ReadOutside(old(View())), report, old(writer.bytes))
    {
      hide Read, IsAdaptive, Step, StringTables.Valid, Sound, JsonTables.Count, JsonTables.Valid, ReadToken,
        CompressionBase.Valid, CompressionBase.View, CompressionBase.Repr, StringDecompressor.Repr,
        StringDecompressor.Valid;
      Known();
      NothingMore(writer.bytes);
      var s := base.ReadKind(decoder);
      if s == END {
        report := Ended;
      } else {
        base.Count(s);
        report := ReadTokenOf(KindOf(s));
      }
    }

    /** One step; the object does exactly what the function `ReadChunk` says, on any stream whatever. */
    method ProcessNextToken() returns (report: Report)
      requires Valid()
      modifies base.Repr(), jsm, jsm.cells, strdecomp.Repr(), decoder, writer
      ensures Did(ReadChunk(old(View())), report, old(writer.bytes))
    {
      hide ReadInside, ReadOutside;
      if base.currentState.IsString() {
        report := ReadString();
      } else {
        report := ReadNonstring();
      }
    }

    method Reset()
      requires Valid()
      modifies base`currentState, jsm, jsm.cells
      ensures Valid() && View() == JsonDocuments.Reset(old(View()))
    {
      hide IsAdaptive, StringTables.Valid, JsonTables.Valid, CompressionBase.View, CompressionBase.Repr,
        StringDecompressor.Repr, StringDecompressor.Valid;
      Known();
      base.Reset();
      jsm.Reset();
    }
  }
}
