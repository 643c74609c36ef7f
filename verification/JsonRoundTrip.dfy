/** Compressing an input and decompressing it again, the way a driver uses the objects. */
module JsonRoundTrip {
  import ByteSinks
  import opened Common
  import Frequencies
  import Intervals
  import opened CodeStream
  import opened ArithmeticEncoder
  import ArithmeticDecoder
  import StringCodec
  import opened StringCompressor
  import opened StringDecompressor
  import opened JsonStates
  import opened JsonTokens
  import opened JsonTokenizer
  import JsonTexts
  import opened Readers
  import opened JsonStream
  import opened JsonDocuments
  import opened JsonCompressionBase
  import JsonCodec
  import RingBuffers
  import opened JsonCompressor
  import opened JsonDecompressor

  predicate TokenEncodable(t: Token) {
    t.NumberToken? ==> t.number.fractionPart < 0x1_0000
  }

  /** No number of the input has a fraction of 65536 or more. */
  predicate InputEncodable(input: seq<byte>) {
    AllEncodable(ReadTokens(INITIAL_STACK, MAX_STACK, input).tokens)
  }

  predicate AllEncodable(ts: seq<Token>) {
    forall i | 0 <= i < |ts| :: TokenEncodable(ts[i])
  }

  /** One more token read from the rest of an input. */
  lemma ReadOneMore(stack: Stack, s: seq<byte>)
    requires Sound(stack, MAX_STACK) && s != []
    ensures var p, r := Parse(stack, MAX_STACK, s), ReadTokens(stack, MAX_STACK, s);
            if p.NoToken? then r == TokensRead([], 0, p.stack)
            else
              && 0 < p.length <= |s|
              && var rest := ReadTokens(p.stack, MAX_STACK, s[p.length..]);
              && r.length == p.length + rest.length && r.stack == rest.stack
              && (AllEncodable(r.tokens) <==> TokenEncodable(p.token) && AllEncodable(rest.tokens))
  {
    hide Parse, Text, Canonical, Step, TokenEncodable;
    var p, r := Parse(stack, MAX_STACK, s), ReadTokens(stack, MAX_STACK, s);
    if p.Parsed? {
      ParsePrintsBack(stack, MAX_STACK, s);
      var rest := ReadTokens(p.stack, MAX_STACK, s[p.length..]);
      assert r.tokens == [p.token] + rest.tokens;
      assert r.tokens[0] == p.token;
      assert forall i | 0 <= i < |rest.tokens| :: r.tokens[i + 1] == rest.tokens[i];
      if AllEncodable(r.tokens) {
        forall i | 0 <= i < |rest.tokens| ensures TokenEncodable(rest.tokens[i]) {
          assert TokenEncodable(r.tokens[i + 1]);
        }
      }
    }
  }

  // ---------------------------------------------------------------- compressing

  lemma CodedMore(comp: JsonCompressor, m: Machine, chunks: seq<Chunk>, sent: seq<Event>, more: seq<Chunk>)
    requires m.Valid() && ChunksOk(m, chunks)
             && comp.Coded(AfterChunks(m, chunks), more, sent + ChunksEvents(m, chunks))
    ensures comp.Coded(m, chunks + more, sent)
  {
    hide Machine.Valid, JsonCompressor.Valid, Encoder.Valid, AfterChunks, ChunksOk, ChunksEvents;
    ChunksCompose(m, chunks, more);
  }

  lemma CodedFacts(comp: JsonCompressor, m: Machine, chunks: seq<Chunk>, sent: seq<Event>)
    requires comp.Coded(m, chunks, sent)
    ensures comp.Valid() && comp.encoder.Valid() && m.Valid() && ChunksOk(m, chunks)
    ensures comp.View() == AfterChunks(m, chunks) && comp.encoder.sent == sent + ChunksEvents(m, chunks)
  {
  }

  lemma NothingLeft(stack: Stack)
    requires Sound(stack, MAX_STACK)
    ensures ReadTokens(stack, MAX_STACK, []) == TokensRead([], 0, stack) && AllEncodable([])
  {
  }

  lemma SliceTwice(s: seq<byte>, i: nat, j: nat)
    requires i <= j <= |s|
    ensures s[i..][j - i..] == s[j..]
  {
  }

  lemma StackSound(comp: JsonCompressor)
    requires comp.Valid()
    ensures Sound(comp.tokenizer.jsm.View(), MAX_STACK) && comp.tokenizer.position <= |comp.tokenizer.input|
  {
  }

  lemma NothingCoded(comp: JsonCompressor)
    requires comp.Valid() && comp.encoder.Valid()
    ensures comp.Coded(comp.View(), [], comp.encoder.sent)
  {
    hide JsonCompressor.Valid, Encoder.Valid, Machine.Valid, JsonCompressor.View;
    comp.Facts();
    NoChunks(comp.View());
  }

  /** What the tokenizer will still read. */
  ghost function Rest(comp: JsonCompressor): TokensRead
    requires comp.Valid()
    reads comp.Repr()
  {
    StackSound(comp);
    ReadTokens(comp.tokenizer.jsm.View(), MAX_STACK, comp.tokenizer.input[comp.tokenizer.position..])
  }

  /** Code one token; `coded` is everything coded since machine `m`. */
  method CompressToken(comp: JsonCompressor, ghost m: Machine, ghost chunks: seq<Chunk>, ghost sent: seq<Event>)
    returns (outcome: TokenOutcome, ghost coded: seq<Chunk>)
    requires comp.Coded(m, chunks, sent) && comp.Valid() && comp.tokenizer.position < |comp.tokenizer.input|
    modifies comp.Repr()
    ensures outcome.Unencodable? ==> !AllEncodable(old(Rest(comp)).tokens)
    ensures outcome.Rejected? ==> AllEncodable(old(Rest(comp)).tokens) && old(Rest(comp)).length == 0
    ensures outcome.Rejected? ==> comp.tokenizer.position == old(comp.tokenizer.position)
    ensures outcome.Rejected? ==> comp.tokenizer.jsm.View() == old(Rest(comp)).stack
    ensures !outcome.Unencodable? ==> comp.Coded(m, coded, sent) && comp.Valid()
    ensures outcome.Written? ==>
              && old(comp.tokenizer.position) < comp.tokenizer.position
              && comp.tokenizer.position + Rest(comp).length == old(comp.tokenizer.position + Rest(comp).length)
              && Rest(comp).stack == old(Rest(comp)).stack
              && (AllEncodable(Rest(comp).tokens) <==> AllEncodable(old(Rest(comp)).tokens))
  {
    hide JsonCompressor.Repr, JsonCompressor.View, JsonCompressor.Valid, Encoder.Valid, Parse, ReadTokens,
      AllEncodable, JsonCompressor.Coded;
    StackSound(comp);
    CodedFacts(comp, m, chunks, sent);
    NothingLeft(comp.tokenizer.jsm.View());
    ReadOneMore(comp.tokenizer.jsm.View(), comp.tokenizer.input[comp.tokenizer.position..]);
    ghost var before := comp.tokenizer.position;
    ghost var more;
    outcome, more := comp.ProcessNextToken();
    coded := chunks + more;
    if !outcome.Unencodable? {
      CodedMore(comp, m, chunks, sent, more);
      CodedFacts(comp, m, coded, sent);
      SliceTwice(comp.tokenizer.input, before, comp.tokenizer.position);
    }
  }

  /** Code tokens until one is refused, the input ends, or a number cannot be coded. */
  method CompressTokens(comp: JsonCompressor) returns (ok: bool, ghost chunks: seq<Chunk>)
    requires comp.Valid() && comp.encoder.Valid()
    modifies comp.Repr()
    ensures ok <==> AllEncodable(old(Rest(comp)).tokens)
    ensures ok ==> comp.Coded(old(comp.View()), chunks, old(comp.encoder.sent))
    ensures ok ==> comp.tokenizer.position == old(comp.tokenizer.position) + old(Rest(comp)).length
    ensures ok ==> comp.Valid() && comp.tokenizer.jsm.View() == old(Rest(comp)).stack
  {
    hide JsonCompressor.Repr, JsonCompressor.View, JsonCompressor.Valid, Encoder.Valid, Parse, ReadTokens,
      AllEncodable, JsonCompressor.Coded, TokenEncodable, Sound;
    ghost var m, sent, start, all := comp.View(), comp.encoder.sent, comp.tokenizer.position, Rest(comp);
    NothingCoded(comp);
    ok, chunks := true, [];
    var more := true;
    while ok && more && comp.tokenizer.position < |comp.tokenizer.input|
      invariant ok ==> comp.Valid() && comp.Coded(m, chunks, sent)
      invariant ok && more ==> comp.tokenizer.position + Rest(comp).length == start + all.length
      invariant ok && more ==> Rest(comp).stack == all.stack
      invariant ok && more ==> (AllEncodable(Rest(comp).tokens) <==> AllEncodable(all.tokens))
      invariant ok && !more ==> comp.tokenizer.position == start + all.length && AllEncodable(all.tokens)
      invariant ok && !more ==> comp.tokenizer.jsm.View() == all.stack
      invariant !ok ==> !AllEncodable(all.tokens)
      decreases ok, more, |comp.tokenizer.input| - comp.tokenizer.position
    {
      var outcome, coded := CompressToken(comp, m, chunks, sent);
      ok, more := !outcome.Unencodable?, outcome.Written?;
      chunks := coded;
    }
    if ok && more {
      StackSound(comp);
      NothingLeft(comp.tokenizer.jsm.View());
    }
  }

  lemma EndedAfter(comp: JsonCompressor, m: Machine, chunks: seq<Chunk>, sent: seq<Event>, last: seq<Chunk>)
    requires m.Valid() && ChunksOk(m, chunks)
             && comp.Ended(AfterChunks(m, chunks), last, sent + ChunksEvents(m, chunks))
    ensures comp.Valid() && comp.encoder.Valid() && ChunksOk(m, chunks + last)
    ensures comp.encoder.sent == sent + DocumentEvents(m, chunks + last)
            && comp.text == AfterChunks(m, chunks + last).text
    ensures comp.View() == Finished(AfterChunks(m, chunks + last)) && comp.tokenizer.jsm.View() == INITIAL_STACK
    ensures AfterChunks(m, chunks + last).stack == AfterChunks(m, chunks).stack
  {
    hide Machine.Valid, JsonCompressor.Valid, Encoder.Valid, FinishEvents, JsonCompressor.Stack,
      CompressionBase.View, StringCompressor.Tables, AfterChunks, ChunksOk, ChunksEvents;
    ChunksCompose(m, chunks, last);
  }

  /** End a document; `chunks` is all of it, from machine `m` on. */
  method FinishDocument(comp: JsonCompressor, ghost m: Machine, ghost coded: seq<Chunk>, ghost sent: seq<Event>)
    returns (ghost chunks: seq<Chunk>)
    requires comp.Coded(m, coded, sent)
    modifies comp.Repr()
    ensures comp.Valid() && comp.encoder.Valid() && comp.tokenizer.jsm.View() == INITIAL_STACK
    ensures m.Valid() && ChunksOk(m, chunks) && comp.encoder.sent == sent + DocumentEvents(m, chunks)
    ensures comp.View() == Finished(AfterChunks(m, chunks))
            && AfterChunks(m, chunks).State() == old(comp.base.currentState)
    ensures comp.tokenizer.position == old(comp.tokenizer.position) <= |comp.tokenizer.input|
    ensures AfterChunks(m, chunks).text == comp.text == comp.tokenizer.input[..comp.tokenizer.position]
  {
    hide JsonCompressor.View, JsonCompressor.Valid, Encoder.Valid, JsonCompressor.Coded, JsonCompressor.Ended,
      JsonCompressor.Repr, ChunksOk, AfterChunks, ChunksEvents, DocumentEvents, Emit, Machine.Valid;
    CodedFacts(comp, m, coded, sent);
    StackSound(comp);
    comp.Facts();
    ghost var last := comp.Finalize();
    EndedAfter(comp, m, coded, sent, last);
    chunks := coded + last;
  }

  /** End the document and the stream. */
  method Finish(comp: JsonCompressor, ghost m: Machine, ghost coded: seq<Chunk>)
    returns (bits: seq<bit>, ghost chunks: seq<Chunk>)
    requires comp.Coded(m, coded, [])
    modifies comp.Repr()
    ensures m.Valid() && ChunksOk(m, chunks) && bits == Emit(Intervals.FULL_INTERVAL, DocumentEvents(m, chunks))
    ensures comp.tokenizer.position == old(comp.tokenizer.position) <= |comp.tokenizer.input|
    ensures AfterChunks(m, chunks).text == comp.tokenizer.input[..comp.tokenizer.position]
  {
    hide JsonCompressor.View, JsonCompressor.Valid, Encoder.Valid, JsonCompressor.Coded, JsonCompressor.Repr,
      ChunksOk, AfterChunks, DocumentEvents, Emit, Machine.Valid;
    chunks := FinishDocument(comp, m, coded, []);
    assert [] + DocumentEvents(m, chunks) == DocumentEvents(m, chunks);
    comp.encoder.Finalize();
    bits := comp.encoder.output;
  }

  datatype Compressed = Aborted | Compressed(bits: seq<bit>, consumed: nat)

  /** The stream of the longest run of tokens the tokenizer accepts. It is aborted if and only if one of
      those tokens is a number with a fraction of 65536 or more. */
  method Compress(input: seq<byte>) returns (r: Compressed, ghost chunks: seq<Chunk>)
    ensures r.Compressed? <==> InputEncodable(input)
    ensures r.Compressed? ==>
              && r.consumed == ReadTokens(INITIAL_STACK, MAX_STACK, input).length
              && ChunksOk(InitialMachine(), chunks)
              && AfterChunks(InitialMachine(), chunks).text == input[..r.consumed]
              && r.bits == Emit(Intervals.FULL_INTERVAL, DocumentEvents(InitialMachine(), chunks))
  {
    hide JsonCompressor.Repr, JsonCompressor.Valid, Encoder.Valid, ReadTokens, AllEncodable, JsonCompressor.Coded,
      StringCompressor.Repr, StringCompressor.Valid, ChunksOk, AfterChunks, DocumentEvents, Emit;
    var comp := NewCompressor(input);
    assert input[0..] == input;
    var ok, coded := CompressTokens(comp);
    chunks := coded;
    if ok {
      var bits, whole := Finish(comp, InitialMachine(), coded);
      chunks := whole;
      r := Compressed(bits, comp.tokenizer.position);
    } else {
      r := Aborted;
    }
  }

  method NewCompressor(input: seq<byte>) returns (comp: JsonCompressor)
    ensures comp.Valid() && comp.encoder.Valid() && fresh(comp.Repr()) && comp.View() == InitialMachine()
            && comp.encoder.sent == []
    ensures comp.tokenizer.input == input && comp.tokenizer.position == 0 && comp.tokenizer.jsm.View() == INITIAL_STACK
    ensures comp.text == []
  {
    hide StringCompressor.Valid, StringCompressor.Repr, JsonCompressor.Valid, CompressionBase.Repr, Tokenizer.Repr,
      ArithmeticEncoder.Run, StringCodec.InitialTables, JsonCodec.InitialJsonTables, RingBuffers.RingBuffer.View,
      Encoder.Valid, Frequencies.IsAdaptive, StringCompressor.Tables;
    var encoder := new Encoder();
    var strcomp := new StringCompressor(encoder);
    comp := new JsonCompressor(input, encoder, strcomp);
  }

  // ---------------------------------------------------------------- decompressing

  lemma SideValid(decomp: JsonDecompressor)
    requires decomp.Valid()
    ensures decomp.View().Valid()
  {
  }

  method NewDecompressor(bits: seq<bit>) returns (decomp: JsonDecompressor)
    ensures decomp.Valid() && decomp.View() == InitialSide(bits) && decomp.writer.bytes == []
    ensures fresh(decomp.base.Repr()) && fresh(decomp.strdecomp.Repr())
    ensures fresh(decomp.jsm) && fresh(decomp.jsm.cells) && fresh(decomp.decoder) && fresh(decomp.writer)
  {
    hide StringDecompressor.Valid, StringDecompressor.Repr, CompressionBase.Repr, JsonDecompressor.Valid,
      RingBuffers.RingBuffer.View, CompressionBase.View, StringCodec.InitialTables, JsonCodec.InitialJsonTables,
      Frequencies.IsAdaptive;
    var writer := new ByteSinks.ByteSink();
    var decoder := new ArithmeticDecoder.Decoder(bits);
    var strdecomp := new StringDecompressor(decoder, writer);
    decomp := new JsonDecompressor(decoder, strdecomp, writer);
  }

  /** One document, until the decompressor stops. */
  method DecompressDocument(decomp: JsonDecompressor, ghost m: Machine, ghost chunks: seq<Chunk>, ghost es: seq<Event>)
    requires decomp.Valid() && m.Valid() && ChunksOk(m, chunks) && decomp.writer.bytes == m.text
    requires InStep(decomp.View(), m, DocumentEvents(m, chunks) + es)
    modifies decomp.base.Repr(), decomp.jsm, decomp.jsm.cells, decomp.strdecomp.Repr(), decomp.decoder, decomp.writer
    ensures decomp.Valid() && decomp.writer.bytes == AfterChunks(m, chunks).text
    ensures InStep(JsonDocuments.Reset(decomp.View()), FinishedReading(AfterChunks(m, chunks)), es)
  {
    hide JsonDecompressor.Valid, JsonDecompressor.View, InStep, ReadChunk, ChunkOk, After, ChunkEvents, FinishEvents,
      FinishedReading, Side.Valid, Machine.Valid, CompressionBase.Repr, StringDecompressor.Repr;
    ghost var now, left := m, chunks;
    var more := true;
    while more
      invariant decomp.Valid() && now.Valid() && ChunksOk(now, left)
      invariant AfterChunks(now, left) == AfterChunks(m, chunks) && decomp.writer.bytes == now.text
      invariant more ==> InStep(decomp.View(), now, DocumentEvents(now, left) + es)
      invariant !more ==> left == [] && InStep(JsonDocuments.Reset(decomp.View()), FinishedReading(now), es)
      decreases more, |left|
    {
      SideValid(decomp);
      if left == [] {
        assert DocumentEvents(now, left) == FinishEvents(now);
        FinishReadBack(decomp.View(), now, es);
      } else {
        ghost var rest := DocumentEvents(After(now, left[0]), left[1..]) + es;
        assert DocumentEvents(now, left) + es == ChunkEvents(now, left[0]) + rest;
        ChunkReadBack(decomp.View(), now, left[0], rest);
      }
      var report := decomp.ProcessNextToken();
      assert now.text + [] == now.text;
      more := report.More?;
      if left != [] {
        now, left := After(now, left[0]), left[1..];
      }
    }
  }

  /** Decompress the stream of a document. */
  method Decompress(bits: seq<bit>, ghost es: seq<Event>, ghost padding: nat, ghost chunks: seq<Chunk>)
    returns (output: seq<byte>)
    requires ChunksOk(InitialMachine(), chunks) && es == DocumentEvents(InitialMachine(), chunks)
    requires bits == Emit(Intervals.FULL_INTERVAL, es) + Repeat(0, padding)
    ensures output == AfterChunks(InitialMachine(), chunks).text
  {
    hide JsonDecompressor.Valid, JsonDecompressor.View, InStep, ReadChunk, Emit, FinishedReading, ChunksOk,
      AfterChunks, DocumentEvents, InitialSide, InitialMachine, Side.Valid, Machine.Valid, CompressionBase.Repr,
      StringDecompressor.Repr;
    var decomp := NewDecompressor(bits);
    InitialInStep(es, padding);
    StartsEmpty();
    assert es + [] == es;
    DecompressDocument(decomp, InitialMachine(), chunks, []);
    output := decomp.writer.bytes;
  }

  /** Reading at most `limit` more chunks of any stream whatever. */
  lemma ReadDocumentStep(x: Side, limit: nat, before: seq<byte>)
    requires x.Valid()
    ensures var first, all := ReadChunk(x), ReadDocument(x, limit);
            if !first.report.More? || limit == 0 then all == first
            else
              var rest := ReadDocument(first.side, limit - 1);
              all.report == rest.report && all.side == rest.side
                && before + all.written == (before + first.written) + rest.written
  {
    hide ReadChunk, Side.Valid;
  }

  /** One document, or what a stream has in its place, in at most so many steps after the first. */
  method ReadOn(decomp: JsonDecompressor, limit: nat) returns (report: Report)
    requires decomp.Valid()
    modifies decomp.base.Repr(), decomp.jsm, decomp.jsm.cells, decomp.strdecomp.Repr(), decomp.decoder, decomp.writer
    ensures old(decomp.View()).Valid()
            && decomp.Did(ReadDocument(old(decomp.View()), limit), report, old(decomp.writer.bytes))
  {
    hide JsonDecompressor.Valid, JsonDecompressor.View, ReadChunk, ReadDocument, Side.Valid, CompressionBase.Repr,
      StringDecompressor.Repr;
    SideValid(decomp);
    ghost var before := decomp.writer.bytes;
    ghost var all := ReadDocument(decomp.View(), limit);
    var left := limit;
    ReadDocumentStep(decomp.View(), left, before);
    report := decomp.ProcessNextToken();
    while report.More? && left > 0
      invariant decomp.Valid() && left <= limit
      invariant if report.More? && left > 0 then
                  && decomp.View().Valid()
                  && var r := ReadDocument(decomp.View(), left - 1);
                     && all.report == r.report && all.side == r.side
                     && before + all.written == decomp.writer.bytes + r.written
                else decomp.Did(all, report, before)
      decreases left
    {
      SideValid(decomp);
      left := left - 1;
      ReadDocumentStep(decomp.View(), left, decomp.writer.bytes);
      report := decomp.ProcessNextToken();
      SideValid(decomp);
    }
  }

  /** Any stream whatever, whoever wrote it, for a limited number of steps. */
  method DecompressAtMost(bits: seq<bit>, limit: nat) returns (report: Report, output: seq<byte>)
    ensures var r := ReadDocument(InitialSide(bits), limit); report == r.report && output == r.written
  {
    hide JsonDecompressor.Valid, JsonDecompressor.View, ReadDocument, InitialSide, Side.Valid, CompressionBase.Repr,
      StringDecompressor.Repr;
    var decomp := NewDecompressor(bits);
    report := ReadOn(decomp, limit);
    output := decomp.writer.bytes;
    assert [] + output == output;
  }

  lemma ReadDocumentsStep(x: Side, limits: seq<nat>, before: seq<byte>)
    requires x.Valid()
    ensures if limits == [] then before + ReadDocuments(x, limits) == before
            else
              var r := ReadDocument(x, limits[0]);
              && JsonDocuments.Reset(r.side).Valid()
              && before + ReadDocuments(x, limits) ==
                 (before + r.written) + ReadDocuments(JsonDocuments.Reset(r.side), limits[1..])
  {
    hide ReadDocument, Side.Valid;
    if limits == [] {
      assert before + [] == before;
    } else {
      ResetValid(ReadDocument(x, limits[0]).side);
    }
  }

  /** Any stream whatever as a series of documents, the decompressor being reset after each. */
  method DecompressSeries(bits: seq<bit>, limits: seq<nat>) returns (output: seq<byte>)
    ensures output == ReadDocuments(InitialSide(bits), limits)
  {
    hide JsonDecompressor.Valid, JsonDecompressor.View, ReadDocument, ReadDocuments, InitialSide, Side.Valid,
      CompressionBase.Repr, StringDecompressor.Repr;
    var decomp := NewDecompressor(bits);
    ghost var all := ReadDocuments(InitialSide(bits), limits);
    assert limits[0..] == limits && [] + all == all;
    var i := 0;
    while i < |limits|
      invariant 0 <= i <= |limits| && decomp.Valid() && decomp.View().Valid()
      invariant fresh(decomp.base.Repr()) && fresh(decomp.strdecomp.Repr())
      invariant all == decomp.writer.bytes + ReadDocuments(decomp.View(), limits[i..])
    {
      ReadDocumentsStep(decomp.View(), limits[i..], decomp.writer.bytes);
      assert limits[i..][1..] == limits[i + 1..];
      var report := ReadOn(decomp, limits[i]);
      decomp.Reset();
      i := i + 1;
    }
    ReadDocumentsStep(decomp.View(), limits[|limits|..], decomp.writer.bytes);
    output := decomp.writer.bytes;
  }

  // ---------------------------------------------------------------- the round trip

  /** For every input, valid JSON or not, stopping anywhere, and any padding of the stream with zero bits:
      decompressing what was compressed gives exactly the bytes that the tokenizer accepted. */
  method RoundTrip(input: seq<byte>, padding: nat) returns (compressed: Compressed, output: seq<byte>)
    ensures compressed.Compressed? <==> InputEncodable(input)
    ensures compressed.Compressed? ==>
              compressed.consumed == ReadTokens(INITIAL_STACK, MAX_STACK, input).length
                && output == input[..compressed.consumed]
  {
    hide AfterChunks, ChunksOk, DocumentEvents, ReadTokens, InputEncodable, Emit;
    var r, chunks := Compress(input);
    compressed, output := r, [];
    if r.Compressed? {
      output := Decompress(r.bits + Repeat(0, padding), DocumentEvents(InitialMachine(), chunks), padding, chunks);
    }
  }

  /** So the text of a whole document comes back whole, if its fractions can be coded. */
  method DocumentRoundTrip(document: seq<byte>, padding: nat) returns (output: seq<byte>)
    requires JsonTexts.IsDocumentText(MAX_STACK, document) && InputEncodable(document)
    ensures output == document
  {
    hide ReadTokens, JsonTexts.IsDocumentText, InputEncodable;
    JsonTexts.DocumentTextsExactly(MAX_STACK, document);
    var compressed;
    compressed, output := RoundTrip(document, padding);
  }

  // ---------------------------------------------------------------- several documents

  /** What a driver does that ends a document whenever no more tokens are accepted, and begins the next there:
      how much it consumes, whether everything can be coded, and whether only the last document may have stopped
      inside a string. */
  datatype DocumentsRead = DocumentsRead(length: nat, encodable: bool, inStep: bool)

  function ReadInput(s: seq<byte>, count: nat): (r: DocumentsRead)
    ensures r.length <= |s|
    decreases count
  {
    if count == 0 then DocumentsRead(0, true, true)
    else
      InitialSound();
      var first := ReadTokens(INITIAL_STACK, MAX_STACK, s);
      var rest := ReadInput(s[first.length..], count - 1);
      DocumentsRead(first.length + rest.length, AllEncodable(first.tokens) && rest.encodable,
                    (count > 1 ==> first.stack != [] && !Top(first.stack).IsString()) && rest.inStep)
  }

  lemma InitialSound()
    ensures Sound(INITIAL_STACK, MAX_STACK)
  {
  }

  lemma StateOfStack(comp: JsonCompressor)
    requires comp.Valid()
    ensures comp.tokenizer.jsm.View() != []
            && (comp.base.currentState.IsString() <==> Top(comp.tokenizer.jsm.View()).IsString())
  {
  }

  /** One of several documents: to the end of what the tokenizer accepts. */
  method CompressNext(comp: JsonCompressor) returns (ok: bool, ghost chunks: seq<Chunk>)
    requires comp.Valid() && comp.encoder.Valid()
    modifies comp.Repr()
    ensures ok <==> AllEncodable(old(Rest(comp)).tokens)
    ensures ok ==>
              && comp.Valid() && comp.encoder.Valid() && comp.tokenizer.jsm.View() == INITIAL_STACK
              && comp.tokenizer.position ==
                 old(comp.tokenizer.position) + old(Rest(comp)).length <= |comp.tokenizer.input|
              && comp.text == comp.tokenizer.input[..comp.tokenizer.position]
    ensures ok ==>
              && old(comp.View()).Valid() && ChunksOk(old(comp.View()), chunks)
              && comp.encoder.sent == old(comp.encoder.sent) + DocumentEvents(old(comp.View()), chunks)
              && comp.View() == Finished(AfterChunks(old(comp.View()), chunks))
              && old(Rest(comp)).stack != []
              && AfterChunks(old(comp.View()), chunks).State().IsString() == Top(old(Rest(comp)).stack).IsString()
    ensures ok ==>
              (FinishedReading(AfterChunks(old(comp.View()), chunks)) == comp.View() <==>
               !Top(old(Rest(comp)).stack).IsString())
  {
    hide JsonCompressor.View, JsonCompressor.Valid, Encoder.Valid, JsonCompressor.Coded, JsonCompressor.Repr,
      ReadTokens, AllEncodable, ChunksOk, AfterChunks, DocumentEvents, Finished, FinishedReading, Machine.Valid,
      Sound;
    ghost var m, sent := comp.View(), comp.encoder.sent;
    var going, coded := CompressTokens(comp);
    ok, chunks := going, coded;
    if ok {
      StateOfStack(comp);
      chunks := FinishDocument(comp, m, coded, sent);
      LockstepExactly(AfterChunks(m, chunks));
    }
  }

  /** The documents of an input and the machine after them. */
  ghost predicate Compressing(comp: JsonCompressor, documents: seq<seq<Chunk>>)
    reads comp.Repr()
  {
    && DocumentsOk(InitialMachine(), documents) && comp.View() == AfterDocuments(InitialMachine(), documents)
    && comp.encoder.sent == DocumentsEvents(InitialMachine(), documents)
  }

  lemma OneMoreDocument(comp: JsonCompressor, before: Machine, sent: seq<Event>, documents: seq<seq<Chunk>>,
      d: seq<Chunk>)
    requires DocumentsOk(InitialMachine(), documents) && AllClosed(InitialMachine(), documents)
    requires before == AfterDocuments(InitialMachine(), documents)
             && sent == DocumentsEvents(InitialMachine(), documents)
    requires ChunksOk(before, d) && comp.encoder.sent == sent + DocumentEvents(before, d)
    requires comp.View() == Finished(AfterChunks(before, d))
    ensures Compressing(comp, documents + [d])
    ensures AllClosed(InitialMachine(), documents + [d]) <==> !AfterChunks(before, d).State().IsString()
  {
    hide Machine.Valid, InitialMachine, JsonCompressor.View, ChunksOk, AfterChunks, DocumentEvents, Finished,
      DocumentsOk, AfterDocuments, DocumentsEvents, AllClosed;
    AppendDocument(InitialMachine(), documents, d);
  }

  /** Compress `count` documents that follow each other in one input, with one compressor. */
  method CompressDocuments(input: seq<byte>, count: nat) returns (r: Compressed, ghost documents: seq<seq<Chunk>>)
    ensures r.Compressed? <==> ReadInput(input, count).encodable
    ensures r.Compressed? ==> r.consumed == ReadInput(input, count).length
    ensures r.Compressed? && ReadInput(input, count).inStep ==>
              && |documents| == count && DocumentsOk(InitialMachine(), documents)
              && AfterDocuments(InitialMachine(), documents).text == input[..r.consumed]
              && r.bits == Emit(Intervals.FULL_INTERVAL, DocumentsEvents(InitialMachine(), documents))
  {
    hide JsonCompressor.View, JsonCompressor.Valid, Encoder.Valid, JsonCompressor.Repr, ReadTokens, AllEncodable,
      ChunksOk, AfterChunks, DocumentEvents, DocumentsOk, AfterDocuments, DocumentsEvents, AllClosed, Finished, Emit,
      InitialMachine, Machine.Valid;
    var comp := NewCompressor(input);
    ghost var all := ReadInput(input, count);
    NoDocuments();
    assert input[0..] == input;
    documents := [];
    var left: nat, ok := count, true;
    while ok && left > 0
      invariant left <= count
      invariant !ok ==> !all.encodable
      invariant ok ==> comp.Valid() && comp.encoder.Valid() && fresh(comp.Repr())
      invariant ok ==> comp.tokenizer.jsm.View() == INITIAL_STACK && comp.tokenizer.input == input
      invariant ok ==> comp.tokenizer.position <= |input| && comp.text == input[..comp.tokenizer.position]
      invariant ok ==>
                  var rest := ReadInput(input[comp.tokenizer.position..], left);
                  && all.length == comp.tokenizer.position + rest.length && all.encodable == rest.encodable
                  && (all.inStep ==> rest.inStep)
      invariant ok && all.inStep ==> Compressing(comp, documents) && |documents| == count - left
      invariant ok && all.inStep && left > 0 ==> AllClosed(InitialMachine(), documents)
      decreases left, ok
    {
      ghost var position, before, sent := comp.tokenizer.position, comp.View(), comp.encoder.sent;
      var going, d := CompressNext(comp);
      ok := going;
      if ok {
        SliceTwice(input, position, comp.tokenizer.position);
        if all.inStep {
          OneMoreDocument(comp, before, sent, documents, d);
        }
        documents := documents + [d];
      }
      left := left - 1;
    }
    if ok {
      TextOfView(comp);
      comp.encoder.Finalize();
      r := Compressed(comp.encoder.output, comp.tokenizer.position);
    } else {
      r := Aborted;
    }
  }

  lemma TextOfView(comp: JsonCompressor)
    ensures comp.View().text == comp.text
  {
  }

  lemma NoDocuments()
    ensures DocumentsOk(InitialMachine(), []) && AllClosed(InitialMachine(), [])
    ensures AfterDocuments(InitialMachine(), []) == InitialMachine() && DocumentsEvents(InitialMachine(), []) == []
  {
  }

  /** Decompress `count` documents with one decompressor, resetting it after each. */
  method DecompressDocuments(bits: seq<bit>, count: nat, ghost es: seq<Event>, ghost padding: nat,
      ghost documents: seq<seq<Chunk>>)
    returns (output: seq<byte>)
    requires DocumentsOk(InitialMachine(), documents) && count == |documents|
             && es == DocumentsEvents(InitialMachine(), documents)
    requires bits == Emit(Intervals.FULL_INTERVAL, es) + Repeat(0, padding)
    ensures output == AfterDocuments(InitialMachine(), documents).text
  {
    hide JsonDecompressor.Valid, JsonDecompressor.View, InStep, Emit, FinishedReading, ChunksOk, AfterChunks,
      DocumentEvents, InitialSide, InitialMachine, Machine.Valid, CompressionBase.Repr, StringDecompressor.Repr;
    var decomp := NewDecompressor(bits);
    InitialInStep(es, padding);
    StartsEmpty();
    assert es + [] == es;
    ghost var m, left := InitialMachine(), documents;
    var i := 0;
    while i < count
      invariant i + |left| == count && decomp.Valid() && m.Valid() && DocumentsOk(m, left)
      invariant fresh(decomp.base.Repr()) && fresh(decomp.strdecomp.Repr())
      invariant AfterDocuments(m, left) == AfterDocuments(InitialMachine(), documents) && decomp.writer.bytes == m.text
      invariant i < count ==> InStep(decomp.View(), m, DocumentsEvents(m, left) + [])
    {
      ghost var after := AfterChunks(m, left[0]);
      ghost var rest := DocumentsEvents(Finished(after), left[1..]) + [];
      assert DocumentsEvents(m, left) + [] == DocumentEvents(m, left[0]) + rest;
      DecompressDocument(decomp, m, left[0], rest);
      decomp.Reset();
      if |left| > 1 {
        LockstepExactly(after);
      }
      m, left := Finished(after), left[1..];
      i := i + 1;
    }
    output := decomp.writer.bytes;
  }

  /** Several documents in one input, one stream, one compressor and one decompressor: if none but the last stops
      inside a string, all of what was consumed comes back. */
  method DocumentsRoundTrip(input: seq<byte>, count: nat, padding: nat)
    returns (compressed: Compressed, output: seq<byte>)
    ensures compressed.Compressed? <==> ReadInput(input, count).encodable
    ensures compressed.Compressed? ==> compressed.consumed == ReadInput(input, count).length
    ensures compressed.Compressed? && ReadInput(input, count).inStep ==> output == input[..compressed.consumed]
  {
    hide DocumentsOk, AfterDocuments, DocumentsEvents, ReadInput, Emit, InitialMachine;
    var r, documents := CompressDocuments(input, count);
    compressed, output := r, [];
    if r.Compressed? {
      var inStep := ReadInput(input, count).inStep;
      if inStep {
        var es := DocumentsEvents(InitialMachine(), documents);
        output := DecompressDocuments(r.bits + Repeat(0, padding), count, es, padding, documents);
      }
    }
  }

  // ---------------------------------------------------------------- through buffers

  /** The bits of a stream as writes, with full buffers handed over, a bit read and a buffer recovered after each. */
  function Puts(bits: seq<bit>): (actions: seq<Action>)
    ensures forall i | 0 <= i < |actions| :: !actions[i].Supply? && !actions[i].PutByte?
  {
    if bits == [] then [] else Puts(bits[..|bits| - 1]) + [Put(bits[|bits| - 1]), HandOver, Get, Recover]
  }

  lemma BitsPutMore(actions: seq<Action>, a: Action)
    ensures BitsPut(actions + [a]) == BitsPut(actions) + a.Bits()
  {
    assert (actions + [a])[..|actions|] == actions;
  }

  lemma {:induction false} PutsBits(bits: seq<bit>)
    ensures BitsPut(Puts(bits)) == bits
    decreases |bits|
  {
    if bits != [] {
      var n := |bits| - 1;
      PutsBits(bits[..n]);
      var before, actions := Puts(bits[..n]), Puts(bits);
      BitsPutMore(before, Put(bits[n]));
      BitsPutMore(before + [Put(bits[n])], HandOver);
      BitsPutMore(before + [Put(bits[n])] + [HandOver], Get);
      BitsPutMore(before + [Put(bits[n])] + [HandOver] + [Get], Recover);
      assert actions == before + [Put(bits[n])] + [HandOver] + [Get] + [Recover];
      assert bits == bits[..n] + [bits[n]];
    }
  }

  lemma PutsOk(bits: seq<bit>)
    ensures ActionsOk(Puts(bits))
  {
    hide Puts, BitsPut;
  }

  /** The round trip with the compressed bits packed into byte buffers of any size and read from them again. */
  method RoundTripThroughBuffers(input: seq<byte>, bufferSize: nat, queueShift: nat)
    returns (compressed: Compressed, output: seq<byte>)
    requires bufferSize > 0
    ensures compressed.Compressed? <==> InputEncodable(input)
    ensures compressed.Compressed? ==>
              compressed.consumed == ReadTokens(INITIAL_STACK, MAX_STACK, input).length
                && output == input[..compressed.consumed]
  {
    hide AfterChunks, ChunksOk, DocumentEvents, ReadTokens, InputEncodable, Emit, BitsPut, Puts;
    var r, chunks := Compress(input);
    compressed, output := r, [];
    if r.Compressed? {
      PutsBits(r.bits);
      PutsOk(r.bits);
      var bits, padding, underflow := WriteThenRead(Puts(r.bits), bufferSize, queueShift);
      output := Decompress(bits, DocumentEvents(InitialMachine(), chunks), padding, chunks);
    }
  }

  // ---------------------------------------------------------------- what leaves the two sides out of step

  const QUOTE: seq<byte> := [0x22]

  lemma QuoteRead()
    ensures ReadTokens(INITIAL_STACK, MAX_STACK, QUOTE) ==
            TokensRead([Simple(StringDelimiter)], 1, [Root, InString])
  {
    assert Parse(INITIAL_STACK, MAX_STACK, QUOTE) == Parsed(Simple(StringDelimiter), 1, [Root, InString]);
    assert QUOTE[1..] == [];
  }

  /** After the document that is a single quote, the compressor's tables are not those of a decompressor that has read
      the document. */
  method CompressQuote() returns (comp: JsonCompressor, ghost chunks: seq<Chunk>)
    ensures ChunksOk(InitialMachine(), chunks) && AfterChunks(InitialMachine(), chunks).text == QUOTE
    ensures comp.Valid() && comp.View() != FinishedReading(AfterChunks(InitialMachine(), chunks))
  {
    hide JsonCompressor.View, JsonCompressor.Valid, Encoder.Valid, JsonCompressor.Repr, ReadTokens, AllEncodable,
      ChunksOk, AfterChunks, DocumentEvents, Finished, FinishedReading, InitialMachine, Machine.Valid;
    comp := NewCompressor(QUOTE);
    QuoteRead();
    assert QUOTE[0..] == QUOTE;
    QuoteEncodable();
    var ok;
    ok, chunks := CompressNext(comp);
    TextOfView(comp);
    FinishedText(AfterChunks(InitialMachine(), chunks));
  }

  lemma FinishedText(m: Machine)
    requires m.Valid()
    ensures Finished(m).text == m.text
  {
  }

  lemma QuoteEncodable()
    ensures AllEncodable([Simple(StringDelimiter)])
  {
  }

  // ---------------------------------------------------------------- what cannot be compressed

  const TOO_LONG_FRACTION: seq<byte> := [0x30, 0x2E, 0x36, 0x35, 0x35, 0x33, 0x36]

  const TOO_LONG_NUMBER :=
    NumberToken(JsonNumber(NumberFlags(true, false, true, false, false, false, false), 0, 0, 65536, 0, 0))

  lemma TooLongNumberText()
    ensures Canonical(false, TOO_LONG_NUMBER) && Text(TOO_LONG_NUMBER) == TOO_LONG_FRACTION
  {
    DigitsOf65536();
  }

  lemma OneNumber(t: Token)
    requires t.NumberToken? && Canonical(false, t)
    ensures TokensOk(INITIAL_STACK, MAX_STACK, [t]) && TextOf([t]) == Text(t)
    ensures Step(INITIAL_STACK, MAX_STACK, Number) == JsonStates.Outcome(true, [Root])
  {
    hide NumberText, NumberOk;
    assert [t][1..] == [];
    assert TextOf([t]) == Text(t) + [];
  }

  /** 0.65536 is the text of a document, but has no coding. */
  lemma FractionCounterexample()
    ensures JsonTexts.IsDocumentText(MAX_STACK, TOO_LONG_FRACTION) && !InputEncodable(TOO_LONG_FRACTION)
  {
    hide Canonical, Text, TextOf, TokensOk, ReadTokens, JsonTexts.IsDocumentText, Step;
    TooLongNumberText();
    OneNumber(TOO_LONG_NUMBER);
    TextIsRead(INITIAL_STACK, MAX_STACK, TOO_LONG_FRACTION, [TOO_LONG_NUMBER]);
    TokensRun(INITIAL_STACK, MAX_STACK, TOO_LONG_FRACTION);
    assert KindsOf([TOO_LONG_NUMBER]) == [Number] && [Number][1..] == [];
    JsonTexts.DocumentTextsExactly(MAX_STACK, TOO_LONG_FRACTION);
    assert !TokenEncodable([TOO_LONG_NUMBER][0]);
  }

  lemma DigitsOf65536()
    ensures Digits(65536) == [0x36, 0x35, 0x35, 0x33, 0x36] && Digits(0) == [0x30]
  {
    assert Digits(6) == [0x36];
    assert Digits(65) == [0x36, 0x35];
    assert Digits(655) == [0x36, 0x35, 0x35];
    assert Digits(6553) == [0x36, 0x35, 0x35, 0x33];
  }
}
