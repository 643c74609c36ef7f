/** JSON compression as values (json_compression_base.c): the stream as a sequence of chunks, what each
    one means and which events code it, and reading the events back. */
module JsonCodec {
  import opened Common
  import opened Frequencies
  import Intervals
  import opened CodeStream
  import opened ArithmeticDecoder
  import opened UintCodec
  import opened JsonStates
  import opened JsonTokens
  import opened JsonTokenizer

  /** The end-of-stream symbol of every state's table. */
  const END: nat := 17
  const SPACES: seq<byte> := [0x20, 0x0A, 0x0D, 0x09]

  // ---------------------------------------------------------------- tables

  // the numeric fields of a number, in the order they are coded
  const FLAGS: nat := 0
  const INTEGER: nat := 1
  const FRACTION_ZEROES: nat := 2
  const FRACTION: nat := 3
  const EXPONENT_ZEROES: nat := 4
  const EXPONENT: nat := 5
  const FIELDS: nat := 6

  const FIELD_SYMBOLS: seq<nat> := [2, 16, 2, 4, 2, 4]

  predicate FieldTableOk(k: nat, t: UintTables)
    requires k < FIELDS
  {
    t.Valid() && t.SymbolCount() == FIELD_SYMBOLS[k]
  }

  predicate FieldTablesOk(uints: seq<UintTables>) {
    |uints| == FIELDS && forall k | 0 <= k < FIELDS :: FieldTableOk(k, uints[k])
  }

  /** A table for the token kinds of each state, one for whitespace, and those of the number fields. */
  datatype JsonTables = JsonTables(states: seq<Table>, spaces: Table, uints: seq<UintTables>) {
    predicate Valid() {
      && |states| == 11 && (forall i | 0 <= i < 11 :: |states[i]| == END + 1)
      && |spaces| == |SPACES| && FieldTablesOk(uints)
    }

    function Of(state: State): (t: Table)
      requires Valid()
      ensures |t| == END + 1
    {
      states[state.Index()]
    }

    function Count(state: State, symbol: nat): (t: JsonTables)
      requires Valid() && symbol <= END
      ensures t.Valid()
    {
      this.(states := states[state.Index() := Bump(Of(state), symbol)])
    }
  }

  /** States have tables of their own: what is counted in one changes no other. */
  lemma CountOnlyHere(t: JsonTables, state: State, other: State, symbol: nat)
    requires t.Valid() && symbol <= END
    ensures t.Count(state, symbol).Of(other) == if other == state then Bump(t.Of(state), symbol) else t.Of(other)
  {
    hide Bump;
    IndexDistinguishes(state, other);
  }

  lemma IndexDistinguishes(a: State, b: State)
    ensures a.Index() == b.Index() <==> a == b
  {
  }

  function InitialJsonTables(): (t: JsonTables)
    ensures t.Valid()
  {
    InitialUintsOk();
    JsonTables(InitialStates(), Ones(|SPACES|), InitialUints())
  }

  function InitialStates(): (states: seq<Table>)
    ensures |states| == 11 && forall i | 0 <= i < 11 :: |states[i]| == END + 1
  {
    seq(11, _ => Ones(END + 1))
  }

  function InitialUints(): seq<UintTables> {
    LimitBits();
    [TablesFor(127), TablesFor(0xFFFF_FFFF_FFFF_FFFF), TablesFor(MAX_LEADING_ZEROES), TablesFor(0xFFFF),
     TablesFor(MAX_LEADING_ZEROES), TablesFor(0xFFFF)]
  }

  lemma InitialUintsOk()
    ensures FieldTablesOk(InitialUints())
  {
    hide MsbIndex, Ones;
    LimitBits();
  }

  lemma MsbStep(v: nat)
    ensures MsbIndex(2 * v + 1) == 1 + MsbIndex(v)
  {
    assert (2 * v + 1) / 2 == v;
  }

  lemma {:induction false} MsbOfNibbles(n: nat)
    ensures MsbIndex(Pow16(n) - 1) == 4 * n - 1
  {
    if n == 0 {
      assert MsbIndex(0) == -1;
    } else {
      hide MsbIndex;
      MsbOfNibbles(n - 1);
      var v := Pow16(n - 1) - 1;
      MsbStep(v);
      MsbStep(2 * v + 1);
      MsbStep(4 * v + 3);
      MsbStep(8 * v + 7);
    }
  }

  lemma LimitBits()
    ensures MsbIndex(127) == 6 && MsbIndex(80) == 6 && MsbIndex(0xFFFF) == 15 && MsbIndex(0xFFFF_FFFF_FFFF_FFFF) == 63
  {
    PowersOf16();
    MsbOfNibbles(4);
    MsbOfNibbles(16);
  }

  lemma PowersOf16()
    ensures Pow16(2) == 0x100 && Pow16(4) == 0x1_0000 && Pow16(16) == 0x1_0000_0000_0000_0000
  {
    assert Pow16(8) == 0x1_0000_0000;
    assert Pow16(12) == 0x1_0000_0000_0000;
  }

  function KindEvent(t: JsonTables, state: State, symbol: nat): (e: Event)
    requires t.Valid() && symbol <= END
  {
    Intervals.AdaptiveEncodable(t.Of(state), symbol);
    Event(t.Of(state), symbol)
  }

  // ---------------------------------------------------------------- numbers

  /** Which fields are coded. */
  function Presence(flags: NumberFlags): (p: seq<bool>)
    ensures |p| == FIELDS
  {
    [true, !flags.zero, flags.fraction, flags.fraction, flags.exponent, flags.exponent]
  }

  function Values(n: JsonNumber): (v: seq<nat>)
    ensures |v| == FIELDS
  {
    [n.flags.Byte(), n.integerPart, n.fractionZeroes, n.fractionPart, n.exponentZeroes, n.exponentPart]
  }

  predicate FieldFits(k: nat, value: nat)
    requires k < FIELDS
  {
    LengthSymbol(value) <= FIELD_SYMBOLS[k]
  }

  predicate FieldsFit(values: seq<nat>) {
    |values| == FIELDS && forall k | 0 <= k < FIELDS :: FieldFits(k, values[k])
  }

  /** Of all the numbers the tokenizer accepts, exactly those whose fraction is below 65536 can be coded. */
  lemma NumberFitsExactly(n: JsonNumber)
    requires NumberOk(n)
    ensures FieldsFit(Values(n)) <==> n.fractionPart < 0x1_0000
  {
    hide MsbIndex, LengthSymbol;
    PowersOf16();
    forall k | 0 <= k < FIELDS ensures FieldFits(k, Values(n)[k]) <==> Values(n)[k] < Pow16(FIELD_SYMBOLS[k]) {
      LengthAtMost(Values(n)[k], FIELD_SYMBOLS[k]);
    }
    assert Values(n)[FRACTION] == n.fractionPart;
  }

  function FieldEvent(t: UintTables, present: bool, value: nat): seq<Event>
    requires t.Valid() && t.Fits(value)
  {
    if present then UintEvents(t, value) else []
  }

  function FieldEvents(uints: seq<UintTables>, presence: seq<bool>, values: seq<nat>, from: nat): seq<Event>
    requires FieldTablesOk(uints) && |presence| == FIELDS && FieldsFit(values) && from <= FIELDS
    decreases FIELDS - from
  {
    if from == FIELDS then []
    else
      assert FieldTableOk(from, uints[from]) && FieldFits(from, values[from]);
      FieldEvent(uints[from], presence[from], values[from]) + FieldEvents(uints, presence, values, from + 1)
  }

  function AfterField(t: UintTables, present: bool, value: nat): (r: UintTables)
    requires t.Valid() && t.Fits(value)
    ensures r.Valid() && r.SymbolCount() == t.SymbolCount()
  {
    if present then AfterUint(t, value) else t
  }

  function AfterFields(uints: seq<UintTables>, presence: seq<bool>, values: seq<nat>): (r: seq<UintTables>)
    requires FieldTablesOk(uints) && |presence| == FIELDS && FieldsFit(values)
    ensures FieldTablesOk(r)
  {
    seq(FIELDS, k requires 0 <= k < FIELDS =>
      assert FieldTableOk(k, uints[k]) && FieldFits(k, values[k]);
      AfterField(uints[k], presence[k], values[k]))
  }

  /** A number while it is read: its fields, initially zero, the tables, and the rest of the stream. */
  datatype FieldsRead = FieldsRead(values: seq<nat>, uints: seq<UintTables>, decoder: DecoderState) {
    predicate Ok() {
      && FieldTablesOk(uints) && decoder.Valid()
      && |values| == FIELDS && forall k | 0 <= k < FIELDS :: ValueOk(k, values[k])
    }
  }

  predicate ValueOk(k: nat, value: nat)
    requires k < FIELDS
  {
    value < Pow16(FIELD_SYMBOLS[k])
  }

  function ReadField(r: FieldsRead, present: bool, k: nat): (r': FieldsRead)
    requires r.Ok() && k < FIELDS
    ensures r'.Ok()
  {
    if present then
      assert FieldTableOk(k, r.uints[k]);
      var (value, t, d) := ReadUint(r.uints[k], r.decoder);
      assert ValueOk(k, value) && FieldTableOk(k, t);
      FieldsRead(r.values[k := value], r.uints[k := t], d)
    else r
  }

  /** Read the fields from the given one on. */
  function ReadFields(r: FieldsRead, presence: seq<bool>, from: nat): (r': FieldsRead)
    requires r.Ok() && |presence| == FIELDS && from <= FIELDS
    ensures r'.Ok()
    decreases FIELDS - from
  {
    if from == FIELDS then r else ReadFields(ReadField(r, presence[from], from), presence, from + 1)
  }

  function Joined<T>(a: seq<T>, b: seq<T>, at: nat): (r: seq<T>)
    requires |a| == |b| && at <= |a|
    ensures |r| == |a|
  {
    a[..at] + b[at..]
  }

  lemma JoinedStep<T>(a: seq<T>, b: seq<T>, at: nat)
    requires |a| == |b| && at < |a|
    ensures Joined(a, b, at)[at] == b[at] && Joined(a, b, at)[at := a[at]] == Joined(a, b, at + 1)
  {
  }

  const ZEROS: seq<nat> := [0, 0, 0, 0, 0, 0]

  /** The fields before the given one have been read, and their tables have adapted. */
  ghost predicate ReadUpTo(r: FieldsRead, uints: seq<UintTables>, presence: seq<bool>, values: seq<nat>, from: nat)
    requires FieldTablesOk(uints) && |presence| == FIELDS && FieldsFit(values) && from <= FIELDS
  {
    && r.Ok()
    && r.values == Joined(values, ZEROS, from)
    && r.uints == Joined(AfterFields(uints, presence, values), uints, from)
  }

  lemma OneReadBack(r: FieldsRead, present: bool, value: nat, k: nat, es: seq<Event>)
    requires r.Ok() && k < FIELDS && FieldFits(k, value) && (!present ==> value == 0) && r.values[k] == 0
    requires r.uints[k].Valid() && r.uints[k].Fits(value)
             && Ready(r.decoder, FieldEvent(r.uints[k], present, value) + es)
    ensures var r' := ReadField(r, present, k);
            && r'.values == r.values[k := value] && r'.uints == r.uints[k := AfterField(r.uints[k], present, value)]
            && Ready(r'.decoder, es)
  {
    hide Ready, ReadUint, UintEvents, AfterUint, LengthSymbol, Low, AllPositive;
    if present {
      UintReadBack(r.uints[k], value, r.decoder, es);
    } else {
      assert FieldEvent(r.uints[k], present, value) + es == es;
    }
  }

  lemma FieldEventsAt(uints: seq<UintTables>, presence: seq<bool>, values: seq<nat>, k: nat, es: seq<Event>)
    requires FieldTablesOk(uints) && |presence| == FIELDS && FieldsFit(values) && k < FIELDS
    ensures |uints| == |values| == FIELDS && uints[k].Valid() && uints[k].Fits(values[k]) && FieldFits(k, values[k])
    ensures |AfterFields(uints, presence, values)| == FIELDS
    ensures AfterFields(uints, presence, values)[k] == AfterField(uints[k], presence[k], values[k])
    ensures FieldEvents(uints, presence, values, k) + es ==
            FieldEvent(uints[k], presence[k], values[k]) + (FieldEvents(uints, presence, values, k + 1) + es)
  {
    hide FieldEvent, AfterField, IsAdaptive, LengthSymbol, Pow16;
    assert FieldTableOk(k, uints[k]) && FieldFits(k, values[k]);
  }

  lemma FieldReadBack(r: FieldsRead, uints: seq<UintTables>, presence: seq<bool>, values: seq<nat>, k: nat,
      es: seq<Event>)
    requires FieldTablesOk(uints) && |presence| == FIELDS && FieldsFit(values) && k < FIELDS
    requires ReadUpTo(r, uints, presence, values, k) && (!presence[k] ==> values[k] == 0)
    requires Ready(r.decoder, FieldEvents(uints, presence, values, k) + es)
    ensures var r' := ReadField(r, presence[k], k);
            ReadUpTo(r', uints, presence, values, k + 1)
              && Ready(r'.decoder, FieldEvents(uints, presence, values, k + 1) + es)
  {
    hide Ready, ReadField, FieldEvent, FieldEvents, AfterField, AfterFields, IsAdaptive, LengthSymbol, Pow16, Joined,
      FieldsRead.Ok, FieldTablesOk, FieldsFit, FieldFits;
    FieldEventsAt(uints, presence, values, k, es);
    JoinedStep(values, ZEROS, k);
    JoinedStep(AfterFields(uints, presence, values), uints, k);
    OneReadBack(r, presence[k], values[k], k, FieldEvents(uints, presence, values, k + 1) + es);
  }

  lemma {:induction false} FieldsReadBack(r: FieldsRead, uints: seq<UintTables>, presence: seq<bool>, values: seq<nat>,
      from: nat, es: seq<Event>)
    requires FieldTablesOk(uints) && |presence| == FIELDS && FieldsFit(values) && from <= FIELDS
    requires ReadUpTo(r, uints, presence, values, from)
    requires forall k | from <= k < FIELDS :: !presence[k] ==> values[k] == 0
    requires Ready(r.decoder, FieldEvents(uints, presence, values, from) + es)
    ensures var r' := ReadFields(r, presence, from);
            r'.values == values && r'.uints == AfterFields(uints, presence, values) && Ready(r'.decoder, es)
    decreases FIELDS - from
  {
    hide Ready, ReadField, FieldEvent, AfterFields;
    if from == FIELDS {
      assert FieldEvents(uints, presence, values, from) + es == es;
    } else {
      hide FieldEvents;
      FieldReadBack(r, uints, presence, values, from, es);
      hide ReadUpTo;
      FieldsReadBack(ReadField(r, presence[from], from), uints, presence, values, from + 1, es);
    }
  }

  // ---------------------------------------------------------------- what follows the kind of a token

  function SpaceSymbol(b: byte): (s: nat)
    ensures s < |SPACES|
  {
    if b == 0x20 then 0 else if b == 0x0A then 1 else if b == 0x0D then 2 else 3
  }

  predicate TokenFits(token: Token) {
    token.NumberToken? ==> FieldsFit(Values(token.number))
  }

  function PayloadEvents(t: JsonTables, token: Token): seq<Event>
    requires t.Valid() && TokenFits(token)
  {
    match token
    case Space(b) => [Event(t.spaces, SpaceSymbol(b))]
    case NumberToken(n) => FieldEvents(t.uints, Presence(n.flags), Values(n), 0)
    case _ => []
  }

  function AfterPayload(t: JsonTables, token: Token): (r: JsonTables)
    requires t.Valid() && TokenFits(token)
    ensures r.Valid()
  {
    match token
    case Space(b) => t.(spaces := Bump(t.spaces, SpaceSymbol(b)))
    case NumberToken(n) => t.(uints := AfterFields(t.uints, Presence(n.flags), Values(n)))
    case _ => t
  }

  datatype PayloadRead = PayloadRead(token: Token, tables: JsonTables, decoder: DecoderState)

  /** The token of the given kind; whatever the decoder holds, some token is read. */
  function ReadPayload(t: JsonTables, kind: Kind, d: DecoderState): (r: PayloadRead)
    requires t.Valid() && d.Valid()
    ensures r.tables.Valid() && r.decoder.Valid()
  {
    match kind
    case Whitespace =>
      var (s, d') := Read(d, t.spaces);
      PayloadRead(Space(SPACES[s]), t.(spaces := Bump(t.spaces, s)), d')
    case Number =>
      var r := ReadNumberFields(t.uints, d);
      PayloadRead(NumberToken(r.number), t.(uints := r.uints), r.decoder)
    case _ => PayloadRead(Simple(kind), t, d)
  }

  datatype NumberRead = NumberRead(number: JsonNumber, uints: seq<UintTables>, decoder: DecoderState)

  /** The flags are read first; they say which of the other fields follow. */
  function ReadNumberFields(uints: seq<UintTables>, d: DecoderState): (r: NumberRead)
    requires FieldTablesOk(uints) && d.Valid()
    ensures FieldTablesOk(r.uints) && r.decoder.Valid()
  {
    NothingReadOk(uints, d);
    var first := ReadField(NothingRead(uints, d), true, FLAGS);
    ByteFields(first);
    var flags := FlagsOf(first.values[FLAGS]);
    var r := ReadFields(first, Presence(flags), INTEGER);
    ByteFields(r);
    NumberRead(Assembled(flags, r.values), r.uints, r.decoder)
  }

  function NothingRead(uints: seq<UintTables>, d: DecoderState): FieldsRead {
    FieldsRead(ZEROS, uints, d)
  }

  lemma NothingReadOk(uints: seq<UintTables>, d: DecoderState)
    requires FieldTablesOk(uints) && d.Valid()
    ensures NothingRead(uints, d).Ok()
  {
    hide FieldTableOk;
  }

  function Assembled(flags: NumberFlags, v: seq<nat>): JsonNumber
    requires |v| == FIELDS && v[FRACTION_ZEROES] < 256 && v[EXPONENT_ZEROES] < 256
  {
    JsonNumber(flags, v[INTEGER], v[FRACTION_ZEROES], v[FRACTION], v[EXPONENT_ZEROES], v[EXPONENT])
  }

  /** Fields with two nibbles hold bytes. */
  lemma ByteFields(r: FieldsRead)
    requires r.Ok()
    ensures r.values[FLAGS] < 256 && r.values[FRACTION_ZEROES] < 256 && r.values[EXPONENT_ZEROES] < 256
  {
    PowersOf16();
    assert ValueOk(FLAGS, r.values[FLAGS]) && ValueOk(FRACTION_ZEROES, r.values[FRACTION_ZEROES]);
    assert ValueOk(EXPONENT_ZEROES, r.values[EXPONENT_ZEROES]);
  }

  lemma NumberReadBack(uints: seq<UintTables>, n: JsonNumber, d: DecoderState, es: seq<Event>)
    requires FieldTablesOk(uints) && NumberOk(n) && FieldsFit(Values(n))
    requires Ready(d, FieldEvents(uints, Presence(n.flags), Values(n), 0) + es)
    ensures d.Valid()
    ensures var r := ReadNumberFields(uints, d);
            r.number == n && r.uints == AfterFields(uints, Presence(n.flags), Values(n)) && Ready(r.decoder, es)
  {
    hide Ready, FieldEvents, AfterFields, ReadField, ReadFields, Readable, PartOk, FieldTablesOk, FieldsFit, FlagsOf,
      ValueOk, DecoderState.Valid;
    var p, v := Presence(n.flags), Values(n);
    ReadyValid(d, FieldEvents(uints, p, v, 0) + es);
    NothingReadOk(uints, d);
    var nothing := NothingRead(uints, d);
    assert ReadUpTo(nothing, uints, p, v, FLAGS);
    FieldReadBack(nothing, uints, p, v, FLAGS, es);
    var first := ReadField(nothing, true, FLAGS);
    FlagsBack(n.flags);
    assert first.values[FLAGS] == v[FLAGS];
    hide ReadUpTo;
    FieldsReadBack(first, uints, p, v, INTEGER, es);
  }

  lemma PayloadReadBack(t: JsonTables, token: Token, d: DecoderState, es: seq<Event>)
    requires t.Valid() && TokenFits(token) && Canonical(false, token) && Ready(d, PayloadEvents(t, token) + es)
    ensures d.Valid()
    ensures var r := ReadPayload(t, token.Kind(), d);
            r.token == token && r.tables == AfterPayload(t, token) && Ready(r.decoder, es)
  {
    hide Ready, Low, AllPositive, Read, FieldEvents, AfterFields, ReadNumberFields, NumberOk, Bump, FieldsFit;
    match token {
      case Space(b) =>
        Intervals.AdaptiveEncodable(t.spaces, SpaceSymbol(b));
        ReadBack(d, t.spaces, SpaceSymbol(b), es);
      case NumberToken(n) =>
        NumberReadBack(t.uints, n, d, es);
      case Simple(k) =>
        assert PayloadEvents(t, token) + es == es;
        ReadyValid(d, es);
    }
  }
}
