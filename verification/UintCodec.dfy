/** Unsigned integers as nibbles (uint_freq_tables.c, uint_writer.c, uint_reader.c): first their
    number, then the nibbles, least significant first, the last one with a table of its own. */
module UintCodec {
  import opened Arithmetic
  import Bitwise
  import opened Frequencies
  import Intervals
  import opened CodeStream
  import ArithmeticEncoder
  import opened ArithmeticDecoder

  /** most_significant_bit_index (math.c). */
  function MsbIndex(v: nat): (r: int)
    ensures -1 <= r
  {
    if v == 0 then -1 else 1 + MsbIndex(v / 2)
  }

  /** The number of nibbles of v, as the writer computes it. */
  function LengthSymbol(v: nat): (n: nat)
    ensures n == 0 <==> v == 0
  {
    (MsbIndex(v) + 4) / 4
  }

  lemma LengthStep(v: nat)
    requires v > 0
    ensures LengthSymbol(v) == 1 + LengthSymbol(v / 16)
    ensures LengthSymbol(v) == 1 <==> v < 16
  {
    var w := v / 2;
    assert w / 2 / 2 / 2 == v / 16;
    assert MsbIndex(v) == 1 + MsbIndex(w);
    if w > 0 && w / 2 > 0 && w / 2 / 2 > 0 {
      assert MsbIndex(w / 2) == 1 + MsbIndex(w / 2 / 2);
      assert MsbIndex(v) == 4 + MsbIndex(v / 16);
    }
  }

  function Pow16(n: nat): (p: nat)
    ensures p > 0
  {
    if n == 0 then 1 else 16 * Pow16(n - 1)
  }

  lemma {:induction false} LengthAtMost(v: nat, n: nat)
    ensures LengthSymbol(v) <= n <==> v < Pow16(n)
    decreases n
  {
    if v > 0 {
      LengthStep(v);
      if n > 0 {
        LengthAtMost(v / 16, n - 1);
      }
    }
  }

  datatype UintTables = UintTables(length: Table, parts: Table, last: Table) {
    predicate Valid() {
      |parts| == 16 && |last| == 16
    }

    /** The largest number of nibbles the length table has a symbol for. */
    function SymbolCount(): nat {
      |length| - 1
    }

    predicate Fits(v: nat) {
      LengthSymbol(v) < |length|
    }
  }

  /** Tables for values up to `maxValue`. */
  function TablesFor(maxValue: nat): (t: UintTables)
    requires MsbIndex(maxValue) < 64
    ensures t.Valid() && t.SymbolCount() == (MsbIndex(maxValue) + 3) / 4
  {
    UintTables(Ones((MsbIndex(maxValue) + 3) / 4 + 1), Ones(16), Ones(16))
  }

  /** A value can be written if and only if it is below sixteen to the number of nibbles. */
  lemma FitsExactly(t: UintTables, v: nat)
    ensures t.Fits(v) <==> v < Pow16(t.SymbolCount())
  {
    LengthAtMost(v, t.SymbolCount());
  }

  /** Tables built for a maximum can code it unless its highest bit is the lowest of a nibble, as it is for
      65536 and 4096: then exactly the values below that power of two fit. */
  lemma MaximumFits(m: nat)
    requires MsbIndex(m) < 64
    ensures TablesFor(m).Fits(m) <==> m == 0 || MsbIndex(m) % 4 != 0
    ensures m > 0 && MsbIndex(m) % 4 == 0 ==> Pow16(TablesFor(m).SymbolCount()) == Pow2(MsbIndex(m)) <= m
  {
    hide MsbIndex, Pow16, Pow2, Ones;
    if m == 0 {
      NoMsb();
    } else {
      MsbBounds(m);
      if MsbIndex(m) % 4 == 0 {
        SixteenIsFourBits(MsbIndex(m) / 4);
      }
    }
  }

  lemma NoMsb()
    ensures MsbIndex(0) == -1
  {
  }

  lemma {:induction false} MsbBounds(v: nat)
    requires v > 0
    ensures MsbIndex(v) >= 0 && Pow2(MsbIndex(v)) <= v < Pow2(MsbIndex(v) + 1)
  {
    if v == 1 {
      assert MsbIndex(1) == 0 && Pow2(1) == 2;
    } else {
      MsbBounds(v / 2);
      var n := MsbIndex(v / 2);
      assert MsbIndex(v) == n + 1;
      hide MsbIndex;
      assert Pow2(n + 1) == 2 * Pow2(n) && Pow2(n + 2) == 2 * Pow2(n + 1);
    }
  }

  lemma {:induction false} SixteenIsFourBits(n: nat)
    ensures Pow16(n) == Pow2(4 * n)
  {
    if n > 0 {
      SixteenIsFourBits(n - 1);
      assert Pow2(4 * n) == 2 * Pow2(4 * n - 1) == 4 * Pow2(4 * n - 2) == 8 * Pow2(4 * n - 3);
    }
  }

  // ---------------------------------------------------------------- writing

  function PartEvents(parts: Table, last: Table, v: nat): (es: seq<Event>)
    requires |parts| == |last| == 16
    ensures |es| == LengthSymbol(v)
  {
    if v == 0 then []
    else
      LengthStep(v);
      if v < 16 then [Event(last, v)]
      else [Event(parts, v % 16)] + PartEvents(parts, last, v / 16)
  }

  function UintEvents(t: UintTables, v: nat): seq<Event>
    requires t.Valid() && t.Fits(v)
  {
    [Event(t.length, LengthSymbol(v))] + PartEvents(t.parts, t.last, v)
  }

  function TopNibble(v: nat): (r: nat)
    ensures r < 16
  {
    if v < 16 then v else TopNibble(v / 16)
  }

  function AfterUint(t: UintTables, v: nat): (r: UintTables)
    requires t.Valid() && t.Fits(v)
    ensures r.Valid() && r.SymbolCount() == t.SymbolCount()
  {
    UintTables(Bump(t.length, LengthSymbol(v)), t.parts, if v == 0 then t.last else Bump(t.last, TopNibble(v)))
  }

  // ---------------------------------------------------------------- reading

  /** Read `n` nibbles; returns their value and the last one. */
  function ReadParts(parts: Table, last: Table, d: DecoderState, n: nat): (r: (nat, nat, DecoderState))
    requires |parts| == |last| == 16 && n > 0 && d.Valid()
    ensures r.1 < 16 && r.0 < Pow16(n) && r.2.Valid()
    decreases n
  {
    if n == 1 then
      var (p, d') := Read(d, last);
      (p, p, d')
    else
      var (p, d') := Read(d, parts);
      var (rest, top, d'') := ReadParts(parts, last, d', n - 1);
      (p + 16 * rest, top, d'')
  }

  function ReadUint(t: UintTables, d: DecoderState): (r: (nat, UintTables, DecoderState))
    requires t.Valid() && d.Valid()
    ensures r.0 < Pow16(t.SymbolCount()) && r.1.Valid() && r.1.SymbolCount() == t.SymbolCount() && r.2.Valid()
  {
    var (n, d') := Read(d, t.length);
    var t' := t.(length := Bump(t.length, n));
    if n == 0 then (0, t', d')
    else
      var (v, top, d'') := ReadParts(t.parts, t.last, d', n);
      Pow16Monotone(n, t.SymbolCount());
      (v, t'.(last := Bump(t.last, top)), d'')
  }

  lemma {:induction false} Pow16Monotone(a: nat, b: nat)
    requires a <= b
    ensures Pow16(a) <= Pow16(b)
    decreases b
  {
    if a < b {
      Pow16Monotone(a, b - 1);
    }
  }

  lemma {:induction false} PartsReadBack(parts: Table, last: Table, v: nat, d: DecoderState, es: seq<Event>)
    requires |parts| == |last| == 16 && v > 0 && Ready(d, PartEvents(parts, last, v) + es)
    ensures d.Valid()
    ensures var r := ReadParts(parts, last, d, LengthSymbol(v));
            r.0 == v && r.1 == TopNibble(v) && Ready(r.2, es)
  {
    hide Read, Ready, Low, AllPositive, MsbIndex;
    LengthStep(v);
    if v < 16 {
      Intervals.AdaptiveEncodable(last, v);
      ReadBack(d, last, v, es);
    } else {
      var rest := PartEvents(parts, last, v / 16) + es;
      assert PartEvents(parts, last, v) + es == [Event(parts, v % 16)] + rest;
      Intervals.AdaptiveEncodable(parts, v % 16);
      ReadBack(d, parts, v % 16, rest);
      PartsReadBack(parts, last, v / 16, Read(d, parts).1, es);
    }
  }

  /** The reader returns the written value and leaves the tables as the writer left its own. */
  lemma UintReadBack(t: UintTables, v: nat, d: DecoderState, es: seq<Event>)
    requires t.Valid() && t.Fits(v) && Ready(d, UintEvents(t, v) + es)
    ensures d.Valid()
    ensures var r := ReadUint(t, d);
            r.0 == v && r.1 == AfterUint(t, v) && Ready(r.2, es)
  {
    hide Read, Ready, Low, AllPositive, MsbIndex;
    var n := LengthSymbol(v);
    assert UintEvents(t, v) + es == [Event(t.length, n)] + (PartEvents(t.parts, t.last, v) + es);
    Intervals.AdaptiveEncodable(t.length, n);
    ReadBack(d, t.length, n, PartEvents(t.parts, t.last, v) + es);
    if v == 0 {
      assert PartEvents(t.parts, t.last, v) + es == es;
    } else {
      PartsReadBack(t.parts, t.last, v, Read(d, t.length).1, es);
      LengthStep(v);
    }
  }

  // ---------------------------------------------------------------- sequences of values

  predicate AllFit(symbolCount: nat, vs: seq<nat>) {
    forall i | 0 <= i < |vs| :: LengthSymbol(vs[i]) <= symbolCount
  }

  function ManyEvents(t: UintTables, vs: seq<nat>): seq<Event>
    requires t.Valid() && AllFit(t.SymbolCount(), vs)
    decreases |vs|
  {
    if vs == [] then [] else UintEvents(t, vs[0]) + ManyEvents(AfterUint(t, vs[0]), vs[1..])
  }

  function ReadMany(t: UintTables, d: DecoderState, n: nat): seq<nat>
    requires t.Valid() && d.Valid()
    decreases n
  {
    if n == 0 then []
    else
      var (v, t', d') := ReadUint(t, d);
      [v] + ReadMany(t', d', n - 1)
  }

  /** Any sequence of values written with one set of tables is read back with another that starts equal. */
  lemma {:induction false} UintRoundTrip(t: UintTables, vs: seq<nat>, d: DecoderState)
    requires t.Valid() && AllFit(t.SymbolCount(), vs) && d.Valid() && Ready(d, ManyEvents(t, vs))
    ensures ReadMany(t, d, |vs|) == vs
    decreases |vs|
  {
    hide Ready, Low, AllPositive, ReadUint, UintEvents, AfterUint;
    if vs != [] {
      UintReadBack(t, vs[0], d, ManyEvents(AfterUint(t, vs[0]), vs[1..]));
      UintRoundTrip(AfterUint(t, vs[0]), vs[1..], ReadUint(t, d).2);
    }
  }

  // ---------------------------------------------------------------- the objects

  class UintFreqTables {
    var lengthTable: Table
    var uintPartsTable: Table
    var lastPartTable: Table

    ghost function View(): UintTables
      reads this
    {
      UintTables(lengthTable, uintPartsTable, lastPartTable)
    }

    constructor (maxValue: nat)
      requires MsbIndex(maxValue) < 64
      ensures View() == TablesFor(maxValue)
    {
      uintPartsTable := Ones(16);
      lastPartTable := Ones(16);
      lengthTable := Ones((MsbIndex(maxValue) + 3) / 4 + 1);
    }
  }

  lemma PartStep(parts: Table, last: Table, v: nat)
    requires |parts| == |last| == 16 && v > 0
    ensures PartEvents(parts, last, v) ==
            [Event(if LengthSymbol(v) == 1 then last else parts, v % 16)] + PartEvents(parts, last, v / 16)
    ensures LengthSymbol(v / 16) == LengthSymbol(v) - 1
    ensures LengthSymbol(v) == 1 ==> TopNibble(v) == v % 16
    ensures LengthSymbol(v) > 1 ==> TopNibble(v) == TopNibble(v / 16)
  {
    LengthStep(v);
  }

  /** The nibbles of a value; the last one, by count, gets its own, adapting table. */
  method WriteParts(tables: UintFreqTables, encoder: ArithmeticEncoder.Encoder, v: nat, count: nat)
    requires tables.View().Valid() && encoder.Valid() && count == LengthSymbol(v)
    modifies tables, encoder
    ensures encoder.Valid() && encoder.sent ==
            old(encoder.sent) + PartEvents(old(tables.uintPartsTable), old(tables.lastPartTable), v)
    ensures var t := old(tables.View());
            tables.View() == t.(last := if v == 0 then t.last else Bump(t.last, TopNibble(v)))
  {
    hide ArithmeticEncoder.Run, Low, AllPositive, Bump, MsbIndex, PartEvents, TopNibble;
    ghost var t := tables.View();
    var value, i := v, 0;
    while i < count
      invariant 0 <= i <= count && LengthSymbol(value) == count - i
      invariant encoder.Valid()
                && encoder.sent + PartEvents(t.parts, t.last, value) ==
                   old(encoder.sent) + PartEvents(t.parts, t.last, v)
      invariant i < count ==> TopNibble(value) == TopNibble(v)
      invariant tables.View() == t.(last := if i < count || v == 0 then t.last else Bump(t.last, TopNibble(v)))
    {
      PartStep(t.parts, t.last, value);
      var part := value % 16;
      value := value / 16;
      if i == count - 1 {
        Intervals.AdaptiveEncodable(tables.lastPartTable, part);
        encoder.Write(tables.lastPartTable, part);
        tables.lastPartTable := Bump(tables.lastPartTable, part);
      } else {
        Intervals.AdaptiveEncodable(tables.uintPartsTable, part);
        encoder.Write(tables.uintPartsTable, part);
      }
      i := i + 1;
    }
  }

  method WriteUint(tables: UintFreqTables, encoder: ArithmeticEncoder.Encoder, v: nat)
    requires tables.View().Valid() && tables.View().Fits(v) && encoder.Valid()
    modifies tables, encoder
    ensures encoder.Valid() && encoder.sent == old(encoder.sent) + UintEvents(old(tables.View()), v)
    ensures tables.View() == AfterUint(old(tables.View()), v)
  {
    hide ArithmeticEncoder.Run, Low, AllPositive, Bump, MsbIndex, PartEvents;
    var lengthSymbol := (MsbIndex(v) + 4) / 4;
    Intervals.AdaptiveEncodable(tables.lengthTable, lengthSymbol);
    encoder.Write(tables.lengthTable, lengthSymbol);
    tables.lengthTable := Bump(tables.lengthTable, lengthSymbol);
    WriteParts(tables, encoder, v, lengthSymbol);
  }

  /** The outcome of a read whose value is put above the nibbles already joined into `result`. */
  function Above(result: nat, scale: nat, r: (nat, nat, DecoderState)): (nat, nat, DecoderState) {
    (result + scale * r.0, r.1, r.2)
  }

  lemma JoinPart(result: nat, scale: nat, part: nat, rest: nat)
    requires result < scale && part < 16
    ensures result + scale * part < 16 * scale
    ensures result + scale * (part + 16 * rest) == result + scale * part + (16 * scale) * rest
  {
    MulMonotone(part, 15, scale);
  }

  /** A nibble shifted by four bits for each one before it lies above all of those: joining it is adding it. */
  lemma JoinedAbove(result: nat, scale: nat, part: nat, i: nat)
    requires result < scale == Pow2(4 * i)
    ensures Bitwise.Or(result, part * scale) == result + scale * part && Pow2(4 * (i + 1)) == 16 * scale
  {
    Bitwise.OrAbove(result, part, 4 * i);
    SixteenIsFourBits(i);
    SixteenIsFourBits(i + 1);
  }

  /** The table of the next nibble when `n` are left. */
  function PartTable(parts: Table, last: Table, n: nat): Table {
    if n == 1 then last else parts
  }

  lemma AbovePart(parts: Table, last: Table, d: DecoderState, n: nat, result: nat, scale: nat)
    requires |parts| == |last| == 16 && n > 0 && d.Valid() && result < scale
    ensures var p := Read(d, PartTable(parts, last, n)).0; p < 16 && result + scale * p < 16 * scale
    ensures var (p, d') := Read(d, PartTable(parts, last, n));
            Above(result, scale, ReadParts(parts, last, d, n)) ==
            if n == 1 then (result + scale * p, p, d')
            else Above(result + scale * p, 16 * scale, ReadParts(parts, last, d', n - 1))
  {
    hide Read;
    var (p, d') := Read(d, PartTable(parts, last, n));
    JoinPart(result, scale, p, if n == 1 then 0 else ReadParts(parts, last, d', n - 1).0);
  }

  lemma NoShift()
    ensures Pow2(4 * 0) == 1
  {
  }

  /** `total` > 0 nibbles, joined from the least significant on. */
  method ReadPartsFrom(tables: UintFreqTables, decoder: Decoder, total: nat) returns (result: nat)
    requires tables.View().Valid() && decoder.State().Valid() && total > 0
    modifies tables, decoder
    ensures var t := old(tables.View());
            var (v, top, d) := ReadParts(t.parts, t.last, old(decoder.State()), total);
            result == v && tables.View() == t.(last := Bump(t.last, top)) && decoder.State() == d
  {
    hide Read, Low, AllPositive, Bump, ReadParts, Bitwise.Or, Pow2;
    NoShift();
    ghost var t := tables.View();
    ghost var goal := ReadParts(t.parts, t.last, decoder.State(), total);
    result := 0;
    var i, scale := 0, 1;
    while i < total - 1
      invariant 0 <= i <= total - 1 && result < scale == Pow2(4 * i)
      invariant tables.View() == t && decoder.State().Valid()
      invariant goal == Above(result, scale, ReadParts(t.parts, t.last, decoder.State(), total - i))
    {
      AbovePart(t.parts, t.last, decoder.State(), total - i, result, scale);
      var part := decoder.ReadSymbol(tables.uintPartsTable);
      JoinedAbove(result, scale, part, i);
      result := Bitwise.Or(result, part * scale);
      scale := 16 * scale;
      i := i + 1;
    }
    AbovePart(t.parts, t.last, decoder.State(), 1, result, scale);
    var part := decoder.ReadSymbol(tables.lastPartTable);
    tables.lastPartTable := Bump(tables.lastPartTable, part);
    JoinedAbove(result, scale, part, i);
    result := Bitwise.Or(result, part * scale);
  }

  method ReadUintFrom(tables: UintFreqTables, decoder: Decoder) returns (result: nat)
    requires tables.View().Valid() && decoder.State().Valid()
    modifies tables, decoder
    ensures (result, tables.View(), decoder.State()) == ReadUint(old(tables.View()), old(decoder.State()))
  {
    hide Read, Low, AllPositive, Bump, ReadParts;
    result := 0;
    var total := decoder.ReadSymbol(tables.lengthTable);
    tables.lengthTable := Bump(tables.lengthTable, total);
    if total > 0 {
      result := ReadPartsFrom(tables, decoder, total);
    }
  }
}
