/** The compressed stream as one adaptive coder with many contexts: which symbol is coded in which context, and that
    every table used is what has been counted in its context so far. */
module JsonContexts {
  import opened Common
  import opened Frequencies
  import opened CodeStream
  import opened UintCodec
  import opened StringCodec
  import opened JsonStates
  import opened JsonTokens
  import opened JsonCodec
  import opened JsonStream
  import opened JsonDocuments
  import MatchSearch

  // ---------------------------------------------------------------- adaptive coding in contexts

  /** How many nibbles a number has, one of them, or its last one. */
  datatype Part = Count | Nibble | LastNibble

  /** The numbers are the six fields of a JSON number, and the offset and the length of a reference. */
  datatype Context = OfState(state: State) | OfSpaces | OfUint(which: nat, part: Part) | OfStrings

  const OFFSETS: nat := 6
  const LENGTHS: nat := 7

  /** A symbol of the stream; it is counted in its context, or not. */
  datatype Coded = Coded(context: Context, symbol: nat, counted: bool)

  type Tables = Context -> Freqs

  /** The table with one more occurrence of a symbol. */
  function Counted(f: Freqs, s: nat): Freqs {
    if s < |f| < MAX_TOTAL then
      PositiveAtMostLength(f);
      Increment(f, s)
    else f
  }

  function Adapt(t: Tables, x: Coded): Tables {
    if x.counted then (c: Context) => if c == x.context then Counted(t(c), x.symbol) else t(c) else t
  }

  function Evolve(t: Tables, xs: seq<Coded>): Tables
    decreases |xs|
  {
    if xs == [] then t else Evolve(Adapt(t, xs[0]), xs[1..])
  }

  /** Each symbol is coded with the table of its context at that time. */
  function CodedEvents(t: Tables, xs: seq<Coded>): seq<AnyEvent>
    decreases |xs|
  {
    if xs == [] then [] else [Event(t(xs[0].context), xs[0].symbol)] + CodedEvents(Adapt(t, xs[0]), xs[1..])
  }

  ghost predicate Same(a: Tables, b: Tables) {
    forall c: Context :: a(c) == b(c)
  }

  /** The symbols counted in one context. */
  function SymbolsIn(xs: seq<Coded>, c: Context): seq<nat>
    decreases |xs|
  {
    if xs == [] then []
    else (if xs[0].context == c && xs[0].counted then [xs[0].symbol] else []) + SymbolsIn(xs[1..], c)
  }

  function AllCounted(f: Freqs, symbols: seq<nat>): Freqs
    decreases |symbols|
  {
    if symbols == [] then f else AllCounted(Counted(f, symbols[0]), symbols[1..])
  }

  /** A table depends on nothing but what was counted in its own context. */
  lemma {:induction false} TableIsHistory(t: Tables, xs: seq<Coded>, c: Context)
    ensures Evolve(t, xs)(c) == AllCounted(t(c), SymbolsIn(xs, c))
    decreases |xs|
  {
    hide Counted;
    if xs != [] {
      TableIsHistory(Adapt(t, xs[0]), xs[1..], c);
      if xs[0].context == c && xs[0].counted {
        assert ([xs[0].symbol] + SymbolsIn(xs[1..], c))[1..] == SymbolsIn(xs[1..], c);
      } else {
        assert [] + SymbolsIn(xs[1..], c) == SymbolsIn(xs[1..], c);
      }
    }
  }

  /** As long as no halving is due, what is counted is how often each symbol occurred. */
  lemma {:induction false} CountsAre(f: Freqs, symbols: seq<nat>)
    requires |f| < MAX_TOTAL && Total(f) + |symbols| <= MAX_TOTAL && forall i | 0 <= i < |symbols| :: symbols[i] < |f|
    ensures |AllCounted(f, symbols)| == |f|
    ensures forall k | 0 <= k < |f| :: AllCounted(f, symbols)[k] == f[k] + multiset(symbols)[k]
    decreases |symbols|
  {
    hide Increment, HalveTimes, Total;
    if symbols != [] {
      var s := symbols[0];
      PositiveAtMostLength(f);
      var n := IncrementExactly(f, s);
      TotalOfUpdate(f, s);
      CountsAre(f[s := f[s] + 1], symbols[1..]);
      assert symbols == [s] + symbols[1..];
    }
  }

  lemma {:induction false} OneEventEach(t: Tables, xs: seq<Coded>)
    ensures |CodedEvents(t, xs)| == |xs|
    decreases |xs|
  {
    hide Adapt;
    if xs != [] {
      OneEventEach(Adapt(t, xs[0]), xs[1..]);
    }
  }

  /** The event at each place, by the history of its context. */
  lemma {:induction false} EventIsHistory(t: Tables, xs: seq<Coded>, i: nat)
    requires i < |xs|
    ensures |CodedEvents(t, xs)| == |xs|
    ensures CodedEvents(t, xs)[i] ==
            Event(AllCounted(t(xs[i].context), SymbolsIn(xs[..i], xs[i].context)), xs[i].symbol)
    decreases |xs|
  {
    hide Counted;
    if i == 0 {
      assert xs[..0] == [];
      if |xs| > 1 {
        EventIsHistory(Adapt(t, xs[0]), xs[1..], 0);
      }
    } else {
      EventIsHistory(Adapt(t, xs[0]), xs[1..], i - 1);
      assert xs[..i][0] == xs[0] && xs[..i][1..] == xs[1..][..i - 1];
      HistoryFirst(t, xs[0], xs[1..][..i - 1], xs[i].context);
      assert [xs[0]] + xs[1..][..i - 1] == xs[..i];
    }
  }

  lemma HistoryFirst(t: Tables, x: Coded, xs: seq<Coded>, c: Context)
    ensures AllCounted(t(c), SymbolsIn([x] + xs, c)) == AllCounted(Adapt(t, x)(c), SymbolsIn(xs, c))
  {
    hide Counted;
    assert ([x] + xs)[1..] == xs;
    TableIsHistory(t, [x] + xs, c);
    TableIsHistory(Adapt(t, x), xs, c);
  }

  // ---------------------------------------------------------------- steps of the coder

  lemma {:induction false} SameCodes(a: Tables, b: Tables, xs: seq<Coded>)
    requires Same(a, b)
    ensures CodedEvents(a, xs) == CodedEvents(b, xs) && Same(Evolve(a, xs), Evolve(b, xs))
    decreases |xs|
  {
    if xs != [] {
      SameCodes(Adapt(a, xs[0]), Adapt(b, xs[0]), xs[1..]);
    }
  }

  lemma {:induction false} CodesJoin(t: Tables, xs: seq<Coded>, ys: seq<Coded>)
    ensures CodedEvents(t, xs + ys) == CodedEvents(t, xs) + CodedEvents(Evolve(t, xs), ys)
    ensures Evolve(t, xs + ys) == Evolve(Evolve(t, xs), ys)
    decreases |xs|
  {
    hide Adapt;
    if xs == [] {
      assert xs + ys == ys && [] + CodedEvents(t, ys) == CodedEvents(t, ys);
    } else {
      assert (xs + ys)[0] == xs[0] && (xs + ys)[1..] == xs[1..] + ys;
      CodesJoin(Adapt(t, xs[0]), xs[1..], ys);
    }
  }

  /** Some events code some symbols, and lead from one state of the tables to another. */
  ghost predicate Codes(before: Tables, es: seq<AnyEvent>, after: Tables, xs: seq<Coded>) {
    es == CodedEvents(before, xs) && Same(Evolve(before, xs), after)
  }

  lemma CodesThen(a: Tables, es: seq<AnyEvent>, b: Tables, xs: seq<Coded>, fs: seq<AnyEvent>, c: Tables, ys: seq<Coded>)
    requires Codes(a, es, b, xs) && Codes(b, fs, c, ys)
    ensures Codes(a, es + fs, c, xs + ys)
  {
    CodesJoin(a, xs, ys);
    SameCodes(Evolve(a, xs), b, ys);
  }

  lemma CodesNothing(t: Tables, u: Tables)
    requires Same(t, u)
    ensures Codes(t, [], u, [])
  {
  }

  lemma CodesOne(t: Tables, x: Coded, u: Tables)
    requires Same(Adapt(t, x), u)
    ensures Codes(t, [Event(t(x.context), x.symbol)], u, [x])
  {
    assert [x][1..] == [];
  }

  /** The same tables by other names. */
  lemma CodesSame(a: Tables, b: Tables, es: seq<AnyEvent>, c: Tables, d: Tables, xs: seq<Coded>)
    requires Same(a, b) && Codes(b, es, c, xs) && Same(c, d)
    ensures Codes(a, es, d, xs)
  {
    SameCodes(a, b, xs);
  }

  // ---------------------------------------------------------------- the tables of the machine

  function PartTable(t: UintTables, part: Part): Freqs {
    match part
    case Count => t.length
    case Nibble => t.parts
    case LastNibble => t.last
  }

  function TableIn(t: JsonTables, s: StringTables, c: Context): Freqs
    requires t.Valid()
  {
    match c
    case OfState(state) => t.Of(state)
    case OfSpaces => t.spaces
    case OfStrings => s.main
    case OfUint(which, part) =>
      if which < FIELDS then PartTable(t.uints[which], part)
      else if which == OFFSETS then PartTable(s.offset, part)
      else if which == LENGTHS then PartTable(s.length, part)
      else []
  }

  function TablesOf(t: JsonTables, s: StringTables): Tables
    requires t.Valid()
  {
    (c: Context) => TableIn(t, s, c)
  }

  /** How many symbols a context has. */
  function SizeOf(c: Context): nat {
    match c
    case OfState(_) => 18
    case OfSpaces => 4
    case OfStrings => 258
    case OfUint(which, Count) => if which < 8 then [3, 17, 3, 5, 3, 5, 5, 4][which] else 0
    case OfUint(which, _) => if which < 8 then 16 else 0
  }

  predicate AllOnes(f: Freqs, n: nat) {
    |f| == n && forall i | 0 <= i < n :: f[i] == 1
  }

  /** Before the first symbol every symbol of every context has been counted once. */
  lemma InitiallyOnes(c: Context)
    ensures AllOnes(TableIn(InitialJsonTables(), InitialTables(), c), SizeOf(c))
  {
    hide MsbIndex, JsonTables.Valid, Ones, TablesFor, InitialTables, AllOnes, PartTable;
    match c {
      case OfState(_) => OnesAre(18);
      case OfSpaces => OnesAre(4);
      case OfStrings =>
        OnesAre(258);
        InitialTablesAre();
      case OfUint(which, part) => InitiallyOnesIn(which, part);
    }
  }

  lemma InitiallyOnesIn(which: nat, part: Part)
    ensures AllOnes(TableIn(InitialJsonTables(), InitialTables(), OfUint(which, part)), SizeOf(OfUint(which, part)))
  {
    hide MsbIndex, JsonTables.Valid, Ones, TablesFor, InitialTables, AllOnes, PartTable, InitialJsonTables,
      FieldLimit;
    InitialTablesAre();
    if which < FIELDS {
      FieldLimits(which);
      TablesAreOnes(FieldLimit(which), part);
    } else if which == OFFSETS {
      TablesAreOnes(MatchSearch.WINDOW, part);
    } else if which == LENGTHS {
      TablesAreOnes(MatchSearch.MATCH_LIMIT, part);
    } else {
      NoOnes();
    }
  }

  /** The largest value of a field of a number, by which its tables are made, and its highest bit. */
  function FieldLimit(which: nat): nat {
    if which == 0 then 127
    else if which == 1 then 0xFFFF_FFFF_FFFF_FFFF
    else if which == 2 || which == 4 then 80
    else 0xFFFF
  }

  function HighestBit(which: nat): nat {
    if which == 1 then 63 else if which == 3 || which == 5 then 15 else 6
  }

  lemma FieldLimits(which: nat)
    requires which < FIELDS
    ensures MsbIndex(FieldLimit(which)) == HighestBit(which)
    ensures InitialJsonTables().uints[which] == TablesFor(FieldLimit(which))
  {
    hide MsbIndex, TablesFor, JsonTables.Valid;
    LimitBits();
  }

  lemma NoOnes()
    ensures AllOnes([], 0)
  {
  }

  lemma OnesAre(n: nat)
    requires 0 < n < MAX_TOTAL
    ensures AllOnes(Ones(n), n)
  {
  }

  lemma TablesAreOnes(maxValue: nat, part: Part)
    requires MsbIndex(maxValue) < 64
    ensures AllOnes(PartTable(TablesFor(maxValue), part), if part.Count? then (MsbIndex(maxValue) + 3) / 4 + 1 else 16)
  {
    hide Ones, MsbIndex, AllOnes;
    OnesAre(16);
    OnesAre((MsbIndex(maxValue) + 3) / 4 + 1);
  }

  // ---------------------------------------------------------------- the symbols of the stream

  function NibbleCount(v: nat): nat {
    if v == 0 then 0 else 1 + NibbleCount(v / 16)
  }

  /** The nibbles of a number, the lowest first; only the last one is counted. */
  function Nibbles(which: nat, v: nat): seq<Coded> {
    if v == 0 then []
    else if v < 16 then [Coded(OfUint(which, LastNibble), v, true)]
    else [Coded(OfUint(which, Nibble), v % 16, false)] + Nibbles(which, v / 16)
  }

  function UintSymbols(which: nat, v: nat): seq<Coded> {
    [Coded(OfUint(which, Count), NibbleCount(v), true)] + Nibbles(which, v)
  }

  function ItemSymbols(item: Item): seq<Coded>
    requires ItemOk(item)
  {
    match item
    case Literal(b) => [Coded(OfStrings, b, true)]
    case Reference(offset, length) =>
      [Coded(OfStrings, 256, true)] + (UintSymbols(OFFSETS, offset - length) + UintSymbols(LENGTHS, length))
    case EndOfString => [Coded(OfStrings, 257, true)]
  }

  function FieldSymbols(present: bool, which: nat, v: nat): seq<Coded> {
    if present then UintSymbols(which, v) else []
  }

  /** The flags, the integer part unless it is zero, and fraction and exponent, if they are there, each with its leading
      zeros first. */
  function NumberSymbols(n: JsonNumber): seq<Coded> {
    UintSymbols(0, n.flags.Byte()) + (FieldSymbols(!n.flags.zero, 1, n.integerPart)
      + (FieldSymbols(n.flags.fraction, 2, n.fractionZeroes) + (FieldSymbols(n.flags.fraction, 3, n.fractionPart)
      + (FieldSymbols(n.flags.exponent, 4, n.exponentZeroes) + FieldSymbols(n.flags.exponent, 5, n.exponentPart)))))
  }

  function PayloadSymbols(t: Token): seq<Coded> {
    match t
    case Space(b) =>
      [Coded(OfSpaces, if b == 0x20 then 0 else if b == 0x0A then 1 else if b == 0x0D then 2 else 3, true)]
    case NumberToken(n) => NumberSymbols(n)
    case _ => []
  }

  function ChunkSymbols(m: Machine, c: Chunk): seq<Coded>
    requires m.Valid() && ChunkOk(m, c)
  {
    match c
    case Outside(t) => [Coded(OfState(m.State()), t.Kind().Symbol(), true)] + PayloadSymbols(t)
    case Part(item) => ItemSymbols(item)
    case Close => ItemSymbols(EndOfString) + [Coded(OfState(m.State()), 9, true)]
  }

  function ChunksSymbols(m: Machine, cs: seq<Chunk>): seq<Coded>
    requires m.Valid() && ChunksOk(m, cs)
    decreases |cs|
  {
    if cs == [] then [] else ChunkSymbols(m, cs[0]) + ChunksSymbols(JsonStream.After(m, cs[0]), cs[1..])
  }

  /** The end marker is not counted. */
  function EndSymbols(m: Machine): seq<Coded>
    requires m.Valid()
  {
    (if m.State().IsString() then ItemSymbols(EndOfString) else []) + [Coded(OfState(m.State()), 17, false)]
  }

  function DocumentsSymbols(m: Machine, documents: seq<seq<Chunk>>): seq<Coded>
    requires m.Valid() && DocumentsOk(m, documents)
    decreases |documents|
  {
    if documents == [] then []
    else
      var m' := AfterChunks(m, documents[0]);
      ChunksSymbols(m, documents[0]) + EndSymbols(m') + DocumentsSymbols(Finished(m'), documents[1..])
  }

  // ---------------------------------------------------------------- numbers

  /** The tables of one kind of number, wherever they are, and all others as they were. */
  function WithUint(t: Tables, which: nat, u: UintTables): Tables {
    (c: Context) => if c.OfUint? && c.which == which then PartTable(u, c.part) else t(c)
  }

  lemma WithUintAt(t: Tables, which: nat, u: UintTables, c: Context)
    ensures WithUint(t, which, u)(c) == if c.OfUint? && c.which == which then PartTable(u, c.part) else t(c)
  {
  }

  lemma AdaptAt(t: Tables, x: Coded, c: Context)
    ensures Adapt(t, x)(c) == if x.counted && c == x.context then Counted(t(c), x.symbol) else t(c)
  {
  }

  lemma BumpIsCounted(t: Table, s: nat)
    requires s < |t|
    ensures Counted(t, s) == Bump(t, s)
  {
  }

  lemma {:induction false} NibbleCountIs(v: nat)
    ensures NibbleCount(v) == LengthSymbol(v)
  {
    hide MsbIndex, LengthSymbol;
    if v > 0 {
      LengthStep(v);
      NibbleCountIs(v / 16);
    } else {
      NoNibbles();
    }
  }

  lemma NoNibbles()
    ensures LengthSymbol(0) == 0
  {
  }

  lemma {:induction false} NibblesCode(t: Tables, which: nat, u: UintTables, v: nat)
    requires u.Valid() && v > 0
    ensures Codes(WithUint(t, which, u), PartEvents(u.parts, u.last, v),
                  WithUint(t, which, u.(last := Bump(u.last, TopNibble(v)))), Nibbles(which, v))
    decreases v
  {
    hide Counted, Codes, LengthSymbol, Same, Adapt;
    var before, after := WithUint(t, which, u), WithUint(t, which, u.(last := Bump(u.last, TopNibble(v))));
    if v < 16 {
      LastNibbleAdapts(t, which, u, v);
      WithUintAt(t, which, u, OfUint(which, LastNibble));
      var x := Coded(OfUint(which, LastNibble), v, true);
      CodesOne(before, x, after);
      assert before(x.context) == u.last && Nibbles(which, v) == [x];
      assert PartEvents(u.parts, u.last, v) == [Event(u.last, v)];
    } else {
      NibblesCode(t, which, u, v / 16);
      var x := Coded(OfUint(which, Nibble), v % 16, false);
      WithUintAt(t, which, u, x.context);
      SameAsItself(before, x);
      CodesOne(before, x, before);
      CodesThen(before, [Event(u.parts, v % 16)], before, [x], PartEvents(u.parts, u.last, v / 16), after,
                Nibbles(which, v / 16));
    }
  }

  lemma SameAsItself(t: Tables, x: Coded)
    requires !x.counted
    ensures Same(Adapt(t, x), t)
  {
  }

  lemma LastNibbleAdapts(t: Tables, which: nat, u: UintTables, v: nat)
    requires u.Valid() && v < 16
    ensures Same(Adapt(WithUint(t, which, u), Coded(OfUint(which, LastNibble), v, true)),
                 WithUint(t, which, u.(last := Bump(u.last, v))))
  {
    hide Counted, Bump;
    BumpIsCounted(u.last, v);
    var x := Coded(OfUint(which, LastNibble), v, true);
    var a, b := Adapt(WithUint(t, which, u), x), WithUint(t, which, u.(last := Bump(u.last, v)));
    forall c: Context ensures a(c) == b(c) {
      AdaptAt(WithUint(t, which, u), x, c);
      WithUintAt(t, which, u, c);
      WithUintAt(t, which, u.(last := Bump(u.last, v)), c);
    }
  }

  lemma CountAdapts(t: Tables, which: nat, u: UintTables, n: nat)
    requires n < |u.length|
    ensures Same(Adapt(WithUint(t, which, u), Coded(OfUint(which, Count), n, true)),
                 WithUint(t, which, u.(length := Bump(u.length, n))))
  {
    hide Counted, Bump;
    BumpIsCounted(u.length, n);
    var x := Coded(OfUint(which, Count), n, true);
    var a, b := Adapt(WithUint(t, which, u), x), WithUint(t, which, u.(length := Bump(u.length, n)));
    forall c: Context ensures a(c) == b(c) {
      AdaptAt(WithUint(t, which, u), x, c);
      WithUintAt(t, which, u, c);
      WithUintAt(t, which, u.(length := Bump(u.length, n)), c);
    }
  }

  lemma UintCodes(t: Tables, which: nat, u: UintTables, v: nat)
    requires u.Valid() && u.Fits(v)
    ensures Codes(WithUint(t, which, u), UintEvents(u, v), WithUint(t, which, AfterUint(u, v)), UintSymbols(which, v))
  {
    hide Counted, Codes, LengthSymbol, Same, Adapt, Bump, PartEvents, Nibbles, NibbleCount;
    var n := LengthSymbol(v);
    NibbleCountIs(v);
    var counted := u.(length := Bump(u.length, n));
    var before, middle := WithUint(t, which, u), WithUint(t, which, counted);
    var x := Coded(OfUint(which, Count), n, true);
    CountAdapts(t, which, u, n);
    WithUintAt(t, which, u, x.context);
    CodesOne(before, x, middle);
    if v == 0 {
      NoNibblesCoded(which, u);
      assert [x] + [] == [x] && before(x.context) == u.length;
      assert UintEvents(u, v) == [Event(u.length, n)] + [] == [Event(u.length, n)];
    } else {
      NibblesCode(t, which, counted, v);
      CodesThen(before, [Event(u.length, n)], middle, [x], PartEvents(u.parts, u.last, v),
                WithUint(t, which, AfterUint(u, v)), Nibbles(which, v));
    }
  }

  lemma NoNibblesCoded(which: nat, u: UintTables)
    requires u.Valid()
    ensures PartEvents(u.parts, u.last, 0) == [] && Nibbles(which, 0) == []
  {
  }

  // ---------------------------------------------------------------- strings

  lemma TablesAt(t: JsonTables, s: StringTables, c: Context)
    requires t.Valid()
    ensures TablesOf(t, s)(c) == TableIn(t, s, c)
  {
  }

  /** A symbol of the strings' main table. */
  lemma MainCodes(t: JsonTables, s: StringTables, symbol: nat)
    requires t.Valid() && s.Valid() && symbol < |s.main|
    ensures Codes(TablesOf(t, s), [Event(s.main, symbol)], TablesOf(t, s.(main := Bump(s.main, symbol))),
                  [Coded(OfStrings, symbol, true)])
  {
    hide Counted, Bump, Codes, JsonTables.Valid;
    var x := Coded(OfStrings, symbol, true);
    var before, after := TablesOf(t, s), TablesOf(t, s.(main := Bump(s.main, symbol)));
    BumpIsCounted(s.main, symbol);
    forall c: Context ensures Adapt(before, x)(c) == after(c) {
      AdaptAt(before, x, c);
      TablesAt(t, s, c);
      TablesAt(t, s.(main := Bump(s.main, symbol)), c);
    }
    TablesAt(t, s, OfStrings);
    CodesOne(before, x, after);
  }

  lemma OffsetCodes(t: JsonTables, s: StringTables, v: nat)
    requires t.Valid() && s.Valid() && s.offset.Fits(v)
    ensures Codes(TablesOf(t, s), UintEvents(s.offset, v), TablesOf(t, s.(offset := AfterUint(s.offset, v))),
                  UintSymbols(OFFSETS, v))
  {
    hide Counted, UintEvents, AfterUint, Codes, JsonTables.Valid, Evolve, CodedEvents, UintSymbols, LengthSymbol;
    var before, later := TablesOf(t, s), s.(offset := AfterUint(s.offset, v));
    UintCodes(before, OFFSETS, s.offset, v);
    forall c: Context
      ensures before(c) == WithUint(before, OFFSETS, s.offset)(c)
      ensures WithUint(before, OFFSETS, later.offset)(c) == TablesOf(t, later)(c)
    {
      WithUintAt(before, OFFSETS, s.offset, c);
      WithUintAt(before, OFFSETS, later.offset, c);
      TablesAt(t, s, c);
      TablesAt(t, later, c);
    }
    CodesSame(before, WithUint(before, OFFSETS, s.offset), UintEvents(s.offset, v),
              WithUint(before, OFFSETS, later.offset), TablesOf(t, later), UintSymbols(OFFSETS, v));
  }

  lemma LengthCodes(t: JsonTables, s: StringTables, v: nat)
    requires t.Valid() && s.Valid() && s.length.Fits(v)
    ensures Codes(TablesOf(t, s), UintEvents(s.length, v), TablesOf(t, s.(length := AfterUint(s.length, v))),
                  UintSymbols(LENGTHS, v))
  {
    hide Counted, UintEvents, AfterUint, Codes, JsonTables.Valid, Evolve, CodedEvents, UintSymbols, LengthSymbol;
    var before, later := TablesOf(t, s), s.(length := AfterUint(s.length, v));
    UintCodes(before, LENGTHS, s.length, v);
    forall c: Context
      ensures before(c) == WithUint(before, LENGTHS, s.length)(c)
      ensures WithUint(before, LENGTHS, later.length)(c) == TablesOf(t, later)(c)
    {
      WithUintAt(before, LENGTHS, s.length, c);
      WithUintAt(before, LENGTHS, later.length, c);
      TablesAt(t, s, c);
      TablesAt(t, later, c);
    }
    CodesSame(before, WithUint(before, LENGTHS, s.length), UintEvents(s.length, v),
              WithUint(before, LENGTHS, later.length), TablesOf(t, later), UintSymbols(LENGTHS, v));
  }

  lemma ItemCodes(t: JsonTables, s: StringTables, item: Item)
    requires t.Valid() && s.Valid() && ItemOk(item)
    ensures Codes(TablesOf(t, s), ItemEvents(s, item), TablesOf(t, AfterItem(s, item)), ItemSymbols(item))
  {
    hide Codes, JsonTables.Valid, Bump, UintEvents, AfterUint, UintSymbols, TablesOf, LengthSymbol;
    match item {
      case Literal(b) => MainCodes(t, s, b);
      case EndOfString => MainCodes(t, s, EOF_SYMBOL);
      case Reference(offset, length) =>
        ReferencesFit(s, item);
        MainCodes(t, s, BACKREFERENCE_SYMBOL);
        var s1 := s.(main := Bump(s.main, BACKREFERENCE_SYMBOL));
        OffsetCodes(t, s1, offset - length);
        var s2 := s1.(offset := AfterUint(s1.offset, offset - length));
        LengthCodes(t, s2, length);
        CodesThen(TablesOf(t, s1), UintEvents(s.offset, offset - length), TablesOf(t, s2),
                  UintSymbols(OFFSETS, offset - length), UintEvents(s.length, length), TablesOf(t, AfterItem(s, item)),
                  UintSymbols(LENGTHS, length));
        CodesThen(TablesOf(t, s), [Event(s.main, BACKREFERENCE_SYMBOL)], TablesOf(t, s1),
                  [Coded(OfStrings, BACKREFERENCE_SYMBOL, true)],
                  UintEvents(s.offset, offset - length) + UintEvents(s.length, length), TablesOf(t, AfterItem(s, item)),
                  UintSymbols(OFFSETS, offset - length) + UintSymbols(LENGTHS, length));
    }
  }

  // ---------------------------------------------------------------- numbers of a document

  /** The tables of the fields. */
  function WithFields(t: Tables, us: seq<UintTables>): Tables {
    (c: Context) => if c.OfUint? && c.which < FIELDS && c.which < |us| then PartTable(us[c.which], c.part) else t(c)
  }

  lemma WithFieldsAt(t: Tables, us: seq<UintTables>, c: Context)
    ensures WithFields(t, us)(c) ==
            if c.OfUint? && c.which < FIELDS && c.which < |us| then PartTable(us[c.which], c.part) else t(c)
  {
  }

  function FieldsSymbols(presence: seq<bool>, values: seq<nat>, from: nat): seq<Coded>
    requires |presence| == |values| == FIELDS && from <= FIELDS
    decreases FIELDS - from
  {
    if from == FIELDS then []
    else FieldSymbols(presence[from], from, values[from]) + FieldsSymbols(presence, values, from + 1)
  }

  lemma FieldCodes(t: Tables, us: seq<UintTables>, k: nat, present: bool, v: nat)
    requires |us| == FIELDS && k < FIELDS && us[k].Valid() && us[k].Fits(v)
    ensures Codes(WithFields(t, us), FieldEvent(us[k], present, v),
                  WithFields(t, us[k := AfterField(us[k], present, v)]), FieldSymbols(present, k, v))
  {
    hide Counted, UintEvents, AfterUint, Codes, Evolve, CodedEvents, UintSymbols, LengthSymbol;
    var before := WithFields(t, us);
    if present {
      var u := AfterUint(us[k], v);
      var after := WithFields(t, us[k := u]);
      UintCodes(before, k, us[k], v);
      forall c: Context
        ensures before(c) == WithUint(before, k, us[k])(c) && WithUint(before, k, u)(c) == after(c)
      {
        WithUintAt(before, k, us[k], c);
        WithUintAt(before, k, u, c);
        WithFieldsAt(t, us, c);
        WithFieldsAt(t, us[k := u], c);
      }
      CodesSame(before, WithUint(before, k, us[k]), UintEvents(us[k], v), WithUint(before, k, u), after,
                UintSymbols(k, v));
    } else {
      assert us[k := us[k]] == us;
      CodesNothing(before, before);
    }
  }

  lemma {:induction false} FieldsCode(t: Tables, uints: seq<UintTables>, presence: seq<bool>, values: seq<nat>,
      from: nat)
    requires FieldTablesOk(uints) && |presence| == FIELDS && FieldsFit(values) && from <= FIELDS
    ensures |uints| == |values| == FIELDS && |AfterFields(uints, presence, values)| == FIELDS
    ensures var after := AfterFields(uints, presence, values);
            Codes(WithFields(t, Joined(after, uints, from)), FieldEvents(uints, presence, values, from),
                  WithFields(t, after), FieldsSymbols(presence, values, from))
    decreases FIELDS - from
  {
    hide Codes, FieldEvent, AfterField, FieldSymbols, WithFields, AfterFields, IsAdaptive, LengthSymbol,
      FieldTablesOk, FieldsFit, FieldFits, FieldEvents;
    FieldFacts(uints, presence, values);
    var after := AfterFields(uints, presence, values);
    if from == FIELDS {
      NoFields(uints, presence, values);
      assert Joined(after, uints, from) == after;
      CodesNothing(WithFields(t, after), WithFields(t, after));
    } else {
      FieldEventsAt(uints, presence, values, from, []);
      var now := Joined(after, uints, from);
      JoinedStep(after, uints, from);
      FieldCodes(t, now, from, presence[from], values[from]);
      FieldsCode(t, uints, presence, values, from + 1);
      var first, rest := FieldEvent(uints[from], presence[from], values[from]),
        FieldEvents(uints, presence, values, from + 1);
      assert FieldEvents(uints, presence, values, from) + [] == FieldEvents(uints, presence, values, from);
      assert rest + [] == rest;
      CodesThen(WithFields(t, now), first, WithFields(t, Joined(after, uints, from + 1)),
                FieldSymbols(presence[from], from, values[from]), rest, WithFields(t, after),
                FieldsSymbols(presence, values, from + 1));
    }
  }

  lemma FieldFacts(uints: seq<UintTables>, presence: seq<bool>, values: seq<nat>)
    requires FieldTablesOk(uints) && |presence| == FIELDS && FieldsFit(values)
    ensures |uints| == |values| == FIELDS && |AfterFields(uints, presence, values)| == FIELDS
  {
  }

  lemma NoFields(uints: seq<UintTables>, presence: seq<bool>, values: seq<nat>)
    requires FieldTablesOk(uints) && |presence| == FIELDS && FieldsFit(values)
    ensures FieldEvents(uints, presence, values, FIELDS) == []
  {
  }

  lemma NumberSymbolsAre(n: JsonNumber)
    ensures FieldsSymbols(Presence(n.flags), Values(n), 0) == NumberSymbols(n)
  {
    hide UintSymbols;
    var p, v := Presence(n.flags), Values(n);
    assert FieldsSymbols(p, v, 5) == FieldSymbols(p[5], 5, v[5]) + [] == FieldSymbols(p[5], 5, v[5]);
    assert FieldsSymbols(p, v, 3) ==
      FieldSymbols(p[3], 3, v[3]) + (FieldSymbols(p[4], 4, v[4]) + FieldsSymbols(p, v, 5));
    assert FieldsSymbols(p, v, 1) ==
      FieldSymbols(p[1], 1, v[1]) + (FieldSymbols(p[2], 2, v[2]) + FieldsSymbols(p, v, 3));
  }

  lemma NumberCodes(t: JsonTables, s: StringTables, n: JsonNumber)
    requires t.Valid() && FieldsFit(Values(n))
    ensures AfterPayload(t, NumberToken(n)).Valid()
    ensures Codes(TablesOf(t, s), PayloadEvents(t, NumberToken(n)), TablesOf(AfterPayload(t, NumberToken(n)), s),
                  NumberSymbols(n))
  {
    hide Counted, Codes, Evolve, CodedEvents, FieldEvents, AfterFields, LengthSymbol, NumberSymbols, FieldsSymbols,
      FieldsFit;
    var p, v, before := Presence(n.flags), Values(n), TablesOf(t, s);
    var later := AfterPayload(t, NumberToken(n));
    var us := AfterFields(t.uints, p, v);
    NumberSymbolsAre(n);
    FieldFacts(t.uints, p, v);
    FieldsCode(before, t.uints, p, v, 0);
    assert Joined(us, t.uints, 0) == t.uints;
    forall c: Context
      ensures before(c) == WithFields(before, t.uints)(c) && WithFields(before, us)(c) == TablesOf(later, s)(c)
    {
      WithFieldsAt(before, t.uints, c);
      WithFieldsAt(before, us, c);
      TablesAt(t, s, c);
      TablesAt(later, s, c);
    }
    CodesSame(before, WithFields(before, t.uints), FieldEvents(t.uints, p, v, 0), WithFields(before, us),
              TablesOf(later, s), NumberSymbols(n));
  }

  // ---------------------------------------------------------------- documents

  lemma PayloadCodes(t: JsonTables, s: StringTables, token: Token)
    requires t.Valid() && TokenFits(token)
    ensures Codes(TablesOf(t, s), PayloadEvents(t, token), TablesOf(AfterPayload(t, token), s), PayloadSymbols(token))
  {
    hide Counted, Codes, Bump, FieldEvents, AfterFields, NumberSymbols, FieldsFit;
    var before, later := TablesOf(t, s), AfterPayload(t, token);
    match token {
      case NumberToken(n) => NumberCodes(t, s, n);
      case Space(b) =>
        var x := Coded(OfSpaces, SpaceSymbol(b), true);
        BumpIsCounted(t.spaces, SpaceSymbol(b));
        forall c: Context ensures Adapt(before, x)(c) == TablesOf(later, s)(c) {
          AdaptAt(before, x, c);
          TablesAt(t, s, c);
          TablesAt(later, s, c);
        }
        TablesAt(t, s, OfSpaces);
        CodesOne(before, x, TablesOf(later, s));
      case _ => CodesNothing(before, before);
    }
  }

  lemma KindCodes(t: JsonTables, s: StringTables, state: State, symbol: nat, counted: bool)
    requires t.Valid() && symbol <= END
    ensures Codes(TablesOf(t, s), [KindEvent(t, state, symbol)],
                  TablesOf(if counted then t.Count(state, symbol) else t, s), [Coded(OfState(state), symbol, counted)])
  {
    hide Counted, Codes, Bump;
    var x := Coded(OfState(state), symbol, counted);
    var before, later := TablesOf(t, s), if counted then t.Count(state, symbol) else t;
    BumpIsCounted(t.Of(state), symbol);
    forall c: Context ensures Adapt(before, x)(c) == TablesOf(later, s)(c) {
      AdaptAt(before, x, c);
      TablesAt(t, s, c);
      TablesAt(later, s, c);
      if c.OfState? {
        CountOnlyHere(t, state, c.state, symbol);
      }
    }
    TablesAt(t, s, x.context);
    CodesOne(before, x, TablesOf(later, s));
  }

  function Of(m: Machine): Tables
    requires m.Valid()
  {
    TablesOf(m.tables, m.strings)
  }

  lemma ChunkCodes(m: Machine, c: Chunk)
    requires m.Valid() && ChunkOk(m, c)
    ensures Codes(Of(m), ChunkEvents(m, c), Of(JsonStream.After(m, c)), ChunkSymbols(m, c))
  {
    hide Codes, TablesOf, PayloadEvents, AfterPayload, PayloadSymbols, ItemEvents, AfterItem, ItemSymbols, KindEvent,
      JsonTables.Valid, JsonTables.Count, StringTables.Valid, Sound, Step, JsonTokens.Text, Apply;
    match c {
      case Part(item) => ItemCodes(m.tables, m.strings, item);
      case Outside(t) =>
        var symbol := t.Kind().Symbol();
        var counted := m.tables.Count(m.State(), symbol);
        KindCodes(m.tables, m.strings, m.State(), symbol, true);
        PayloadCodes(counted, m.strings, t);
        CodesThen(Of(m), [KindEvent(m.tables, m.State(), symbol)], TablesOf(counted, m.strings),
                  [Coded(OfState(m.State()), symbol, true)], PayloadEvents(counted, t),
                  TablesOf(AfterPayload(counted, t), m.strings), PayloadSymbols(t));
      case Close =>
        var ended := AfterItem(m.strings, EndOfString);
        ItemCodes(m.tables, m.strings, EndOfString);
        KindCodes(m.tables, ended, m.State(), StringDelimiter.Symbol(), true);
        CodesThen(Of(m), ItemEvents(m.strings, EndOfString), TablesOf(m.tables, ended), ItemSymbols(EndOfString),
                  [KindEvent(m.tables, m.State(), StringDelimiter.Symbol())], Of(JsonStream.After(m, c)),
                  [Coded(OfState(m.State()), StringDelimiter.Symbol(), true)]);
    }
  }

  lemma {:induction false} ChunksCode(m: Machine, cs: seq<Chunk>)
    requires m.Valid() && ChunksOk(m, cs)
    ensures Codes(Of(m), ChunksEvents(m, cs), Of(AfterChunks(m, cs)), ChunksSymbols(m, cs))
    decreases |cs|
  {
    hide Codes, Of, ChunkEvents, ChunkSymbols, JsonStream.After, Machine.Valid, ChunkOk;
    if cs == [] {
      CodesNothing(Of(m), Of(m));
    } else {
      var next := JsonStream.After(m, cs[0]);
      ChunkCodes(m, cs[0]);
      ChunksCode(next, cs[1..]);
      CodesThen(Of(m), ChunkEvents(m, cs[0]), Of(next), ChunkSymbols(m, cs[0]), ChunksEvents(next, cs[1..]),
                Of(AfterChunks(m, cs)), ChunksSymbols(next, cs[1..]));
    }
  }

  lemma EndCodes(m: Machine)
    requires m.Valid()
    ensures Codes(Of(m), FinishEvents(m), Of(Finished(m)), EndSymbols(m))
  {
    hide Codes, TablesOf, ItemEvents, AfterItem, ItemSymbols, KindEvent, JsonTables.Valid, StringTables.Valid, Sound;
    var ended := if m.State().IsString() then AfterItem(m.strings, EndOfString) else m.strings;
    if m.State().IsString() {
      ItemCodes(m.tables, m.strings, EndOfString);
    } else {
      CodesNothing(Of(m), Of(m));
    }
    KindCodes(m.tables, ended, m.State(), END, false);
    CodesThen(Of(m), ContentEnd(m), TablesOf(m.tables, ended),
              if m.State().IsString() then ItemSymbols(EndOfString) else [], [KindEvent(m.tables, m.State(), END)],
              TablesOf(m.tables, ended), [Coded(OfState(m.State()), END, false)]);
  }

  /** The events of any series of documents are those of one adaptive coder, symbol by symbol: each is coded with the
      table of its context, and each table with what was counted in it. */
  lemma {:induction false} DocumentsCode(m: Machine, documents: seq<seq<Chunk>>)
    requires m.Valid() && DocumentsOk(m, documents)
    ensures Codes(Of(m), DocumentsEvents(m, documents), Of(AfterDocuments(m, documents)),
                  DocumentsSymbols(m, documents))
    decreases |documents|
  {
    hide Codes, Of, ChunksEvents, ChunksSymbols, AfterChunks, Machine.Valid, ChunksOk, FinishEvents, EndSymbols,
      Finished;
    if documents == [] {
      CodesNothing(Of(m), Of(m));
    } else {
      var m' := AfterChunks(m, documents[0]);
      var next := Finished(m');
      ChunksCode(m, documents[0]);
      EndCodes(m');
      CodesThen(Of(m), ChunksEvents(m, documents[0]), Of(m'), ChunksSymbols(m, documents[0]), FinishEvents(m'),
                Of(next), EndSymbols(m'));
      DocumentsCode(next, documents[1..]);
      CodesThen(Of(m), DocumentEvents(m, documents[0]), Of(next), ChunksSymbols(m, documents[0]) + EndSymbols(m'),
                DocumentsEvents(next, documents[1..]), Of(AfterDocuments(m, documents)),
                DocumentsSymbols(next, documents[1..]));
    }
  }

  /** So every event of a stream has the table in which each symbol of its context has been counted once to begin with,
      and once more whenever it was coded there before. */
  lemma StreamIsHistory(documents: seq<seq<Chunk>>, i: nat)
    requires DocumentsOk(InitialMachine(), documents) && i < |DocumentsEvents(InitialMachine(), documents)|
    ensures var es, xs := DocumentsEvents(InitialMachine(), documents), DocumentsSymbols(InitialMachine(), documents);
            && |xs| == |es|
            && var first := TableIn(InitialJsonTables(), InitialTables(), xs[i].context);
            && AllOnes(first, SizeOf(xs[i].context))
            && es[i] == Event(AllCounted(first, SymbolsIn(xs[..i], xs[i].context)), xs[i].symbol)
  {
    hide DocumentsEvents, DocumentsSymbols, AllCounted, AllOnes, SizeOf, InitialJsonTables, InitialTables,
      DocumentsOk, AfterDocuments;
    DocumentsCode(InitialMachine(), documents);
    var xs := DocumentsSymbols(InitialMachine(), documents);
    InitialCoded();
    OneEventEach(Of(InitialMachine()), xs);
    EventIsHistory(Of(InitialMachine()), xs, i);
    InitiallyOnes(xs[i].context);
    TablesAt(InitialJsonTables(), InitialTables(), xs[i].context);
  }

  lemma InitialCoded()
    ensures InitialMachine().Valid() && Of(InitialMachine()) == TablesOf(InitialJsonTables(), InitialTables())
  {
    hide InitialJsonTables, InitialTables;
  }
}
