/** The tables of a JSON compressor or decompressor as an object (json_compression_base.c). */
module JsonCompressionBase {
  import opened Frequencies
  import Intervals
  import ArithmeticEncoder
  import ArithmeticDecoder
  import opened UintCodec
  import JsonStates
  import JsonTokenizer
  import opened JsonCodec

  class CompressionBase {
    var states: seq<Table>
    var whitespaces: Table
    const flagTables: UintFreqTables
    const integerTables: UintFreqTables
    const fractionZeroTables: UintFreqTables
    const fractionTables: UintFreqTables
    const exponentZeroTables: UintFreqTables
    const exponentTables: UintFreqTables
    var currentState: JsonStates.State

    ghost function Repr(): (r: set<object>)
      ensures this in r
    {
      {this, flagTables, integerTables, fractionZeroTables, fractionTables, exponentZeroTables, exponentTables}
    }

    /** The tables of one field of numbers. */
    function Field(k: nat): (tables: UintFreqTables)
      requires k < FIELDS
      ensures tables in Repr()
    {
      if k == FLAGS then flagTables
      else if k == INTEGER then integerTables
      else if k == FRACTION_ZEROES then fractionZeroTables
      else if k == FRACTION then fractionTables
      else if k == EXPONENT_ZEROES then exponentZeroTables
      else exponentTables
    }

    ghost function NumberTables(): (r: seq<UintTables>)
      reads flagTables, integerTables, fractionZeroTables, fractionTables, exponentZeroTables, exponentTables
      ensures |r| == FIELDS
    {
      [flagTables.View(), integerTables.View(), fractionZeroTables.View(), fractionTables.View(),
       exponentZeroTables.View(), exponentTables.View()]
    }

    lemma AllFields()
      ensures forall k | 0 <= k < FIELDS :: NumberTables()[k] == Field(k).View()
    {
    }

    lemma FieldsDiffer()
      requires Separate()
      ensures forall i, j | 0 <= i < FIELDS && 0 <= j < FIELDS && i != j :: Field(i) != Field(j)
    {
    }

    lemma OneFieldChanged(before: seq<UintTables>, k: nat)
      requires k < FIELDS == |before| && forall j | 0 <= j < FIELDS && j != k :: Field(j).View() == before[j]
      ensures NumberTables() == before[k := Field(k).View()]
    {
      hide UintFreqTables.View;
      AllFields();
    }

    ghost function View(): JsonTables
      reads Repr()
    {
      JsonTables(states, whitespaces, NumberTables())
    }

    ghost predicate Separate() {
      && flagTables !in {integerTables, fractionZeroTables, fractionTables, exponentZeroTables, exponentTables}
      && integerTables !in {fractionZeroTables, fractionTables, exponentZeroTables, exponentTables}
      && fractionZeroTables !in {fractionTables, exponentZeroTables, exponentTables}
      && fractionTables !in {exponentZeroTables, exponentTables}
      && exponentZeroTables != exponentTables
    }

    ghost predicate Valid()
      reads Repr()
    {
      Separate() && View().Valid()
    }

    constructor ()
      ensures Valid() && fresh(Repr()) && View() == InitialJsonTables() && currentState == JsonStates.Start
    {
      hide IsAdaptive, JsonTables.Valid, TablesFor, MsbIndex, Ones, FieldTablesOk;
      LimitBits();
      flagTables := new UintFreqTables(127);
      integerTables := new UintFreqTables(0xFFFF_FFFF_FFFF_FFFF);
      fractionZeroTables := new UintFreqTables(JsonTokenizer.MAX_LEADING_ZEROES);
      fractionTables := new UintFreqTables(0xFFFF);
      exponentZeroTables := new UintFreqTables(JsonTokenizer.MAX_LEADING_ZEROES);
      exponentTables := new UintFreqTables(0xFFFF);
      states := InitialStates();
      whitespaces := Ones(|SPACES|);
      currentState := JsonStates.Start;
      new;
      assert NumberTables() == InitialUints();
      assert View() == InitialJsonTables();
    }

    method Reset()
      requires Valid()
      modifies this`currentState
      ensures Valid() && View() == old(View()) && currentState == JsonStates.Start
    {
      currentState := JsonStates.Start;
    }

    /** Code one symbol with the table of the current state; the table is left as it was. */
    method WriteKind(encoder: ArithmeticEncoder.Encoder, symbol: nat)
      requires Valid() && encoder.Valid() && symbol <= END
      modifies encoder
      ensures encoder.Valid() && encoder.sent == old(encoder.sent) + [KindEvent(View(), currentState, symbol)]
    {
      hide ArithmeticEncoder.Run, Low, AllPositive;
      var table := states[currentState.Index()];
      Intervals.AdaptiveEncodable(table, symbol);
      encoder.Write(table, symbol);
    }

    method ReadKind(decoder: ArithmeticDecoder.Decoder) returns (symbol: nat)
      requires Valid() && decoder.State().Valid()
      modifies decoder
      ensures symbol <= END
      ensures (symbol, decoder.State()) == ArithmeticDecoder.Read(old(decoder.State()), View().Of(currentState))
      ensures decoder.State().Valid()
    {
      hide ArithmeticDecoder.Read, Low, AllPositive;
      var table := states[currentState.Index()];
      ArithmeticDecoder.AdaptiveDecodable(table);
      symbol := decoder.ReadSymbol(table);
    }

    method Count(symbol: nat)
      requires Valid() && symbol <= END
      modifies this`states
      ensures Valid() && View() == old(View()).Count(currentState, symbol)
    {
      hide Low, AllPositive, Bump;
      ghost var before := View();
      var i := currentState.Index();
      states := states[i := Bump(states[i], symbol)];
      assert View() == before.Count(currentState, symbol);
    }
  }
}
