/** Whole documents, and several documents that share one stream, one window and one set of tables. */
module JsonDocuments {
  import opened Common
  import opened Frequencies
  import Intervals
  import opened CodeStream
  import ArithmeticDecoder
  import RingBuffers
  import MatchSearch
  import StringCodec
  import JsonStates
  import JsonCodec
  import opened JsonStream

  // ---------------------------------------------------------------- runs of chunks

  predicate ChunksOk(m: Machine, cs: seq<Chunk>)
    requires m.Valid()
    decreases |cs|
  {
    cs != [] ==> ChunkOk(m, cs[0]) && ChunksOk(After(m, cs[0]), cs[1..])
  }

  function AfterChunks(m: Machine, cs: seq<Chunk>): (r: Machine)
    requires m.Valid() && ChunksOk(m, cs)
    ensures r.Valid()
    decreases |cs|
  {
    if cs == [] then m else AfterChunks(After(m, cs[0]), cs[1..])
  }

  function ChunksEvents(m: Machine, cs: seq<Chunk>): seq<Event>
    requires m.Valid() && ChunksOk(m, cs)
    decreases |cs|
  {
    if cs == [] then [] else ChunkEvents(m, cs[0]) + ChunksEvents(After(m, cs[0]), cs[1..])
  }

  lemma {:induction false} ChunksCompose(m: Machine, xs: seq<Chunk>, ys: seq<Chunk>)
    requires m.Valid() && ChunksOk(m, xs) && ChunksOk(AfterChunks(m, xs), ys)
    ensures ChunksOk(m, xs + ys)
    ensures AfterChunks(m, xs + ys) == AfterChunks(AfterChunks(m, xs), ys)
    ensures ChunksEvents(m, xs + ys) == ChunksEvents(m, xs) + ChunksEvents(AfterChunks(m, xs), ys)
    decreases |xs|
  {
    hide Machine.Valid, After, ChunkOk, ChunkEvents;
    if xs == [] {
      assert xs + ys == ys;
    } else {
      ChunksCompose(After(m, xs[0]), xs[1..], ys);
      assert (xs + ys)[1..] == xs[1..] + ys && (xs + ys)[0] == xs[0];
      assert ChunksOk(m, xs + ys);
    }
  }

  lemma OneChunk(m: Machine, c: Chunk)
    requires m.Valid() && ChunkOk(m, c)
    ensures ChunksOk(m, [c]) && AfterChunks(m, [c]) == After(m, c) && ChunksEvents(m, [c]) == ChunkEvents(m, c)
  {
    hide Machine.Valid, After, ChunkOk, ChunkEvents;
    assert ChunksOk(After(m, c), []) && ChunksEvents(After(m, c), []) == [];
    assert [c][1..] == [];
  }

  // ---------------------------------------------------------------- one document

  function DocumentEvents(m: Machine, cs: seq<Chunk>): seq<Event>
    requires m.Valid() && ChunksOk(m, cs)
  {
    ChunksEvents(m, cs) + FinishEvents(AfterChunks(m, cs))
  }

  /** Read chunks until the decompressor stops, at most `fuel` after the first. */
  function ReadDocument(x: Side, fuel: nat): (r: SideRead)
    requires x.Valid()
    ensures r.side.Valid() && |r.side.ring.content| == |x.ring.content|
    decreases fuel
  {
    var first := ReadChunk(x);
    if !first.report.More? || fuel == 0 then first
    else
      var rest := ReadDocument(first.side, fuel - 1);
      rest.(written := first.written + rest.written)
  }

  function Reset(x: Side): Side {
    x.(stack := JsonStates.INITIAL_STACK, current := JsonStates.Start)
  }

  /** However a document ends, the decompressor prints exactly its text and stops. */
  lemma {:induction false} DocumentReadBack(x: Side, m: Machine, cs: seq<Chunk>, es: seq<Event>, fuel: nat)
    requires m.Valid() && ChunksOk(m, cs) && |cs| <= fuel && InStep(x, m, DocumentEvents(m, cs) + es)
    ensures x.Valid()
    ensures var r := ReadDocument(x, fuel);
            && r.report.Ended? && m.text + r.written == AfterChunks(m, cs).text
            && InStep(Reset(r.side), FinishedReading(AfterChunks(m, cs)), es)
    decreases |cs|
  {
    hide Machine.Valid, Side.Valid, After, ChunkOk, ChunkEvents, FinishEvents, ReadChunk, InStep, FinishedReading;
    if cs == [] {
      assert DocumentEvents(m, cs) == FinishEvents(m);
      FinishReadBack(x, m, es);
      assert m.text + [] == m.text;
    } else {
      var after := After(m, cs[0]);
      var rest := DocumentEvents(after, cs[1..]) + es;
      assert DocumentEvents(m, cs) + es == ChunkEvents(m, cs[0]) + rest;
      ChunkReadBack(x, m, cs[0], rest);
      var first := ReadChunk(x);
      DocumentReadBack(first.side, after, cs[1..], es, fuel - 1);
      var tail := ReadDocument(first.side, fuel - 1);
      assert m.text + (first.written + tail.written) == (m.text + first.written) + tail.written;
    }
  }

  // ---------------------------------------------------------------- lockstep across documents

  /** Counting one more symbol always changes a small table. */
  lemma BumpChanges(t: Table, s: nat)
    requires s < |t| <= JsonCodec.END + 1
    ensures Bump(t, s) != t
  {
    PositiveAtMostLength(t);
    if Total(t) >= MAX_TOTAL {
      HalfTotal(t, |t|);
      HalveShrinks(t, |t|);
      assert HalveUntil(t, MAX_TOTAL) == HalveUntil(Halve(t), MAX_TOTAL);
      LowOfUpdate(HalveUntil(t, MAX_TOTAL), s, HalveUntil(t, MAX_TOTAL)[s] + 1, |t|);
    }
  }

  lemma {:induction false} HalfTotal(f: Freqs, s: nat)
    requires s <= |f|
    ensures 2 * Low(Halve(f), s) <= Low(f, s) + s
  {
    if s > 0 {
      HalfTotal(f, s - 1);
    }
  }

  /** After the end marker both sides agree if and only if the document did not stop inside a string. */
  lemma LockstepExactly(m: Machine)
    requires m.Valid()
    ensures FinishedReading(m) == Finished(m) <==> !m.State().IsString()
  {
    hide Bump, Low, AllPositive;
    if m.State().IsString() {
      var i := m.State().Index();
      BumpChanges(m.tables.Of(m.State()), JsonCodec.END);
      assert FinishedReading(m).tables.states[i] != Finished(m).tables.states[i];
    }
  }

  /** Each document starts with what the one before leaves; only the last may stop inside a string. */
  predicate DocumentsOk(m: Machine, documents: seq<seq<Chunk>>)
    requires m.Valid()
    decreases |documents|
  {
    documents != [] ==>
      && ChunksOk(m, documents[0])
      && var m' := AfterChunks(m, documents[0]);
         (|documents| > 1 ==> !m'.State().IsString()) && DocumentsOk(Finished(m'), documents[1..])
  }

  function DocumentsEvents(m: Machine, documents: seq<seq<Chunk>>): seq<Event>
    requires m.Valid() && DocumentsOk(m, documents)
    decreases |documents|
  {
    if documents == [] then []
    else DocumentEvents(m, documents[0]) + DocumentsEvents(Finished(AfterChunks(m, documents[0])), documents[1..])
  }

  function AfterDocuments(m: Machine, documents: seq<seq<Chunk>>): (r: Machine)
    requires m.Valid() && DocumentsOk(m, documents)
    ensures r.Valid()
    decreases |documents|
  {
    if documents == [] then m else AfterDocuments(Finished(AfterChunks(m, documents[0])), documents[1..])
  }

  /** No document stops inside a string. */
  predicate AllClosed(m: Machine, documents: seq<seq<Chunk>>)
    requires m.Valid() && DocumentsOk(m, documents)
    decreases |documents|
  {
    documents != [] ==>
      var m' := AfterChunks(m, documents[0]);
      !m'.State().IsString() && AllClosed(Finished(m'), documents[1..])
  }

  lemma {:induction false} AppendDocument(m: Machine, documents: seq<seq<Chunk>>, d: seq<Chunk>)
    requires m.Valid() && DocumentsOk(m, documents) && AllClosed(m, documents)
             && ChunksOk(AfterDocuments(m, documents), d)
    ensures var more, m' := documents + [d], AfterDocuments(m, documents);
            && DocumentsOk(m, more) && AfterDocuments(m, more) == Finished(AfterChunks(m', d))
            && DocumentsEvents(m, more) == DocumentsEvents(m, documents) + DocumentEvents(m', d)
            && (AllClosed(m, more) <==> !AfterChunks(m', d).State().IsString())
    decreases |documents|
  {
    hide Machine.Valid, Finished, AfterChunks, ChunksOk, DocumentEvents;
    var more := documents + [d];
    if documents == [] {
      assert more[0] == d && more[1..] == [];
    } else {
      assert more[0] == documents[0] && more[1..] == documents[1..] + [d];
      AppendDocument(Finished(AfterChunks(m, documents[0])), documents[1..], d);
    }
  }

  /** Read one document per fuel, resetting the decompressor after each; the text of all of them. */
  function ReadDocuments(x: Side, fuels: seq<nat>): seq<byte>
    requires x.Valid()
    decreases |fuels|
  {
    if fuels == [] then []
    else
      var r := ReadDocument(x, fuels[0]);
      ResetValid(r.side);
      r.written + ReadDocuments(Reset(r.side), fuels[1..])
  }

  lemma ResetValid(x: Side)
    requires x.Valid()
    ensures Reset(x).Valid()
  {
  }

  /** Any number of documents in one stream are read back, if only the last one stops inside a string. */
  lemma {:induction false} DocumentsReadBack(x: Side, m: Machine, documents: seq<seq<Chunk>>, fuels: seq<nat>,
      es: seq<Event>)
    requires m.Valid() && DocumentsOk(m, documents) && InStep(x, m, DocumentsEvents(m, documents) + es) && x.Valid()
    requires |fuels| == |documents| && forall i | 0 <= i < |fuels| :: |documents[i]| <= fuels[i]
    ensures m.text + ReadDocuments(x, fuels) == AfterDocuments(m, documents).text
    decreases |documents|
  {
    hide Machine.Valid, Side.Valid, InStep, FinishedReading, DocumentEvents, AfterChunks, ChunksOk, ReadDocument;
    if documents == [] {
      assert m.text + [] == m.text;
    } else {
      var m' := AfterChunks(m, documents[0]);
      var rest := DocumentsEvents(Finished(m'), documents[1..]) + es;
      assert DocumentsEvents(m, documents) + es == DocumentEvents(m, documents[0]) + rest;
      DocumentReadBack(x, m, documents[0], rest, fuels[0]);
      var r := ReadDocument(x, fuels[0]);
      if |documents| > 1 {
        LockstepExactly(m');
        ResetValid(r.side);
        DocumentsReadBack(Reset(r.side), Finished(m'), documents[1..], fuels[1..], es);
        assert m.text + (r.written + ReadDocuments(Reset(r.side), fuels[1..])) ==
          m'.text + ReadDocuments(Reset(r.side), fuels[1..]);
      } else {
        assert documents[1..] == [] && fuels[1..] == [];
        assert m.text + (r.written + []) == m.text + r.written;
      }
    }
  }

  // ---------------------------------------------------------------- the start

  function InitialMachine(): (m: Machine)
    ensures m.Valid()
  {
    Machine(JsonCodec.InitialJsonTables(), JsonStates.INITIAL_STACK, StringCodec.InitialTables(),
            Repeat(0, MatchSearch.WINDOW), [])
  }

  function InitialSide(bits: seq<bit>): (x: Side)
    ensures x.Valid()
  {
    Side(JsonCodec.InitialJsonTables(), JsonStates.Start, JsonStates.INITIAL_STACK, StringCodec.InitialTables(),
         RingBuffers.EmptyRing(MatchSearch.WINDOW), ArithmeticDecoder.Initial(bits))
  }

  lemma InitialInStep(es: seq<Event>, padding: nat)
    ensures InStep(InitialSide(Emit(Intervals.FULL_INTERVAL, es) + Repeat(0, padding)), InitialMachine(), es)
  {
    hide ArithmeticDecoder.Ready, RingBuffers.Remembers, ArithmeticDecoder.Initial, StringCodec.StringTables.Valid,
      JsonCodec.JsonTables.Valid;
    ArithmeticDecoder.InitialReady(es, padding);
    RingBuffers.EmptyRemembers(MatchSearch.WINDOW);
  }

  /** The round trip of the compressed format, for every sequence of documents and any zero padding. */
  lemma DocumentsRoundTrip(documents: seq<seq<Chunk>>, fuels: seq<nat>, padding: nat)
    requires DocumentsOk(InitialMachine(), documents)
    requires |fuels| == |documents| && forall i | 0 <= i < |fuels| :: |documents[i]| <= fuels[i]
    ensures var bits := Emit(Intervals.FULL_INTERVAL, DocumentsEvents(InitialMachine(), documents));
            ReadDocuments(InitialSide(bits + Repeat(0, padding)), fuels) ==
              AfterDocuments(InitialMachine(), documents).text
  {
    hide InStep, InitialMachine, InitialSide, DocumentsEvents, DocumentsOk, ReadDocuments, AfterDocuments, Emit,
      Side.Valid, Machine.Valid;
    var m, es := InitialMachine(), DocumentsEvents(InitialMachine(), documents);
    InitialInStep(es, padding);
    assert es + [] == es;
    var x := InitialSide(Emit(Intervals.FULL_INTERVAL, es) + Repeat(0, padding));
    DocumentsReadBack(x, m, documents, fuels, []);
    assert m.text == [] by {
      StartsEmpty();
    }
  }

  lemma StartsEmpty()
    ensures InitialMachine().text == []
  {
  }
}
