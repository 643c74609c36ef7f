/** The lexemes of JSON texts as RFC 8259 (sections 2, 6 and 7) and RFC 3629 define them, by their bytes alone, and the
    proof that the tokenizer finds them and reads every document written with them. */
module JsonLexemes {
  import opened Common
  import opened JsonStates
  import opened JsonGrammar
  import opened JsonTokens
  import opened JsonTokenizer
  import JsonTexts

  // ---------------------------------------------------------------- runs of digits

  predicate AllDigits(s: seq<byte>) {
    forall i | 0 <= i < |s| :: 0x30 <= s[i] <= 0x39
  }

  /** The number that some digits stand for. */
  function DecimalValue(s: seq<byte>): nat
    requires AllDigits(s)
  {
    if s == [] then 0 else 10 * DecimalValue(s[..|s| - 1]) + (s[|s| - 1] - 0x30)
  }

  function LeadingZeroes(s: seq<byte>): (n: nat)
    ensures n <= |s|
  {
    if s == [] || s[0] != 0x30 then 0 else 1 + LeadingZeroes(s[1..])
  }

  lemma {:induction false} LeadingZeroesMore(s: seq<byte>, b: byte)
    ensures LeadingZeroes(s + [b]) == if LeadingZeroes(s) == |s| && b == 0x30 then |s| + 1 else LeadingZeroes(s)
    decreases |s|
  {
    if s != [] {
      assert (s + [b])[1..] == s[1..] + [b];
      LeadingZeroesMore(s[1..], b);
    } else {
      assert (s + [b])[1..] == [];
    }
  }

  /** A run of digits is its leading zeros and the digits of its value. */
  lemma {:induction false} DigitsAre(s: seq<byte>)
    requires AllDigits(s)
    ensures ZeroesAndDigits(LeadingZeroes(s), DecimalValue(s)) == s
    ensures DecimalValue(s) == 0 <==> LeadingZeroes(s) == |s|
    decreases |s|
  {
    hide Digits;
    if s != [] {
      var most, digit := s[..|s| - 1], s[|s| - 1] - 0x30;
      DigitsAre(most);
      assert s == most + [s[|s| - 1]];
      LeadingZeroesMore(most, s[|s| - 1]);
      if DecimalValue(most) > 0 || digit > 0 {
        AppendDigitText(LeadingZeroes(most), DecimalValue(most), digit);
      } else {
        AppendZero(LeadingZeroes(most));
      }
    }
  }

  // ---------------------------------------------------------------- numbers

  /** The values that the tokenizer's test for overflow lets through: all but some of the largest 64-bit values. */
  predicate IsReadable(v: nat) {
    v / 10 + v % 10 < 1_844_674_407_370_955_161
  }

  lemma AlmostAllReadable(v: nat)
    ensures v < 18_446_744_073_709_551_529 ==> IsReadable(v)
    ensures IsReadable(v) ==> v < 18_446_744_073_709_551_610
  {
  }

  datatype Sign = NoSign | PlusSign | MinusSign

  /** The parts of a number; a fraction or an exponent that is not there has no digits. */
  datatype NumberParts = NumberParts(negative: bool, integer: seq<byte>, fraction: seq<byte>, upper: bool, sign: Sign,
                                     exponent: seq<byte>)
  {
    predicate Valid() {
      && AllDigits(integer) && AllDigits(fraction) && AllDigits(exponent)
      && integer != [] && (integer[0] == 0x30 ==> |integer| == 1)
      && (exponent == [] ==> !upper && sign.NoSign?)
    }

    function Bytes(): seq<byte> {
      (if negative then [0x2D] else []) + (integer
        + ((if fraction == [] then [] else [0x2E] + fraction) + ExponentBytes()))
    }

    function ExponentBytes(): seq<byte> {
      if exponent == [] then [] else [if upper then 0x45 else 0x65] + (SignBytes() + exponent)
    }

    function SignBytes(): seq<byte> {
      match sign
      case NoSign => []
      case PlusSign => [0x2B]
      case MinusSign => [0x2D]
    }

    /** What the tokenizer can represent. */
    predicate InLimits()
      requires Valid()
    {
      && IsReadable(DecimalValue(integer)) && IsReadable(DecimalValue(fraction))
      && LeadingZeroes(fraction) < 80 && LeadingZeroes(exponent) < 80 && DecimalValue(exponent) <= 65_535
    }

    function Number(): JsonNumber
      requires Valid() && InLimits()
    {
      JsonNumber(NumberFlags(DecimalValue(integer) == 0, negative, fraction != [], exponent != [], upper,
                             sign.MinusSign?, sign.PlusSign?),
                 DecimalValue(integer), LeadingZeroes(fraction), DecimalValue(fraction), LeadingZeroes(exponent),
                 DecimalValue(exponent))
    }
  }

  lemma IntegerIs(s: seq<byte>)
    requires AllDigits(s) && s != [] && (s[0] == 0x30 ==> |s| == 1)
    ensures Digits(DecimalValue(s)) == s
  {
    DigitsAre(s);
    if s[0] == 0x30 {
      assert s == [0x30] && s[..0] == [];
      assert DecimalValue(s) == 0;
    } else {
      assert Repeat(0x30 as byte, 0) == [];
    }
  }

  lemma NumberIs(n: NumberParts)
    requires n.Valid() && n.InLimits()
    ensures NumberOk(n.Number()) && NumberText(n.Number()) == n.Bytes()
  {
    hide Digits, ZeroesAndDigits, DecimalValue, LeadingZeroes, AllDigits, Readable, IsReadable;
    IntegerIs(n.integer);
    DigitsAre(n.fraction);
    DigitsAre(n.exponent);
    NoDigits();
    ReadableIs(DecimalValue(n.integer));
    ReadableIs(DecimalValue(n.fraction));
    ReadableIs(DecimalValue(n.exponent));
    AlmostAllReadable(DecimalValue(n.exponent));
  }

  lemma ReadableIs(v: nat)
    ensures IsReadable(v) <==> Readable(v)
  {
  }

  lemma NoDigits()
    ensures AllDigits([]) && DecimalValue([]) == 0 && LeadingZeroes([]) == 0
  {
  }

  /** What follows a number and is no part of it. */
  predicate EndsNumber(rest: seq<byte>) {
    rest != [] ==> !(0x30 <= rest[0] <= 0x39) && rest[0] != 0x2E && rest[0] != 0x45 && rest[0] != 0x65
  }

  /** Every number within the limits is found, with the values of its parts. */
  lemma NumberFound(n: NumberParts, rest: seq<byte>)
    requires n.Valid() && n.InLimits() && EndsNumber(rest)
    ensures var s := n.Bytes() + rest;
            s != [] && Scan(false, s) == Found(NumberToken(n.Number()), |n.Bytes()|)
  {
    hide NumberText, NumberOk, ScanNumber, NumberParts.Bytes, NumberParts.InLimits, NumberParts.Number;
    NumberIs(n);
    OutsideScans(NumberToken(n.Number()), rest);
    TextNotEmpty(false, NumberToken(n.Number()));
  }

  lemma {:induction false} DigitsBack(v: nat)
    ensures AllDigits(Digits(v)) && DecimalValue(Digits(v)) == v
    ensures Digits(v)[0] == 0x30 ==> v == 0 && |Digits(v)| == 1
    decreases v
  {
    if v >= 10 {
      DigitsBack(v / 10);
      var d := Digits(v);
      assert d[..|d| - 1] == Digits(v / 10) && d[0] == Digits(v / 10)[0];
    } else {
      assert Digits(v)[..0] == [];
    }
  }

  lemma {:induction false} ZeroesBack(zeroes: nat, v: nat)
    ensures var s := ZeroesAndDigits(zeroes, v);
            && AllDigits(s) && DecimalValue(s) == v && LeadingZeroes(s) == zeroes
            && (zeroes > 0 || v > 0 <==> s != [])
    decreases zeroes
  {
    hide ZeroesAndDigits, DecimalValue, AllDigits;
    if zeroes > 0 {
      ZeroesBack(zeroes - 1, v);
      ZeroInFront(zeroes, v);
      var rest := ZeroesAndDigits(zeroes - 1, v);
      assert ([0x30 as byte] + rest)[1..] == rest;
      ZeroFirst(rest);
    } else {
      NoZeroes(v);
    }
  }

  lemma NoZeroes(v: nat)
    ensures var s := ZeroesAndDigits(0, v);
            && AllDigits(s) && DecimalValue(s) == v && LeadingZeroes(s) == 0 && (v > 0 <==> s != [])
  {
    DigitsBack(v);
    hide Digits;
    assert Repeat(0x30 as byte, 0) == [];
    assert ZeroesAndDigits(0, v) == if v == 0 then [] else Digits(v);
  }

  lemma ZeroInFront(zeroes: nat, v: nat)
    requires zeroes > 0
    ensures ZeroesAndDigits(zeroes, v) == [0x30] + ZeroesAndDigits(zeroes - 1, v)
  {
    hide Digits;
    assert Repeat(0x30 as byte, zeroes) == [0x30] + Repeat(0x30, zeroes - 1);
  }

  lemma {:induction false} ZeroFirst(s: seq<byte>)
    requires AllDigits(s)
    ensures AllDigits([0x30] + s) && DecimalValue([0x30] + s) == DecimalValue(s)
    decreases |s|
  {
    var t := [0x30 as byte] + s;
    if s != [] {
      ZeroFirst(s[..|s| - 1]);
      assert t[..|t| - 1] == [0x30] + s[..|s| - 1];
    } else {
      assert t == [0x30] && t[..0] == [];
    }
  }

  function SignOf(n: JsonNumber): Sign {
    if n.flags.plus then PlusSign else if n.flags.minus then MinusSign else NoSign
  }

  /** And every number that is found is one of those. */
  lemma NumbersFound(s: seq<byte>) returns (n: NumberParts)
    requires s != [] && Scan(false, s).Found? && Scan(false, s).token.NumberToken?
    ensures n.Valid() && n.InLimits()
    ensures var f := Scan(false, s); f.token.number == n.Number() && f.length <= |s| && s[..f.length] == n.Bytes()
  {
    hide Scan, NumberText, ZeroesAndDigits, Digits, DecimalValue, LeadingZeroes, AllDigits, Readable, IsReadable;
    var f := Scan(false, s);
    var x := f.token.number;
    ScanExactly(false, s, f.token, f.length);
    n := NumberParts(x.flags.negative, Digits(x.integerPart), ZeroesAndDigits(x.fractionZeroes, x.fractionPart),
                     x.flags.upper, SignOf(x), ZeroesAndDigits(x.exponentZeroes, x.exponentPart));
    DigitsBack(x.integerPart);
    ZeroesBack(x.fractionZeroes, x.fractionPart);
    ZeroesBack(x.exponentZeroes, x.exponentPart);
    ReadableIs(x.integerPart);
    ReadableIs(x.fractionPart);
    AlmostAllReadable(x.fractionPart);
    NumberIs(n);
  }

  // ---------------------------------------------------------------- characters

  /** A character by its code point, encoded as section 3 of RFC 3629 says. */
  function Utf8(c: nat): (s: seq<byte>)
    requires c <= 0x10_FFFF
    ensures s != []
  {
    if c < 0x80 then [c]
    else if c < 0x800 then [0xC0 + c / 64, 0x80 + c % 64]
    else if c < 0x1_0000 then [0xE0 + c / 4096, 0x80 + c / 64 % 64, 0x80 + c % 64]
    else [0xF0 + c / 262_144, 0x80 + c / 4096 % 64, 0x80 + c / 64 % 64, 0x80 + c % 64]
  }

  /** Characters that stand for themselves in a string. */
  predicate IsUnescaped(c: nat) {
    0x20 <= c <= 0x10_FFFF && c != 0x22 && c != 0x5C
  }

  lemma Utf8Is(c: nat)
    requires IsUnescaped(c)
    ensures CharacterOk(Utf8(c))
  {
  }

  /** Every such character is found as one token, however many bytes it takes. */
  lemma CharacterFound(c: nat, rest: seq<byte>)
    requires IsUnescaped(c)
    ensures var s := Utf8(c); Scan(true, s + rest) == Found(Character(Merge(s), |s|), |s|)
  {
    hide Utf8, CharacterOk, Merge;
    Utf8Is(c);
    MergeBack(Utf8(c));
    StringScans(Character(Merge(Utf8(c)), |Utf8(c)|), rest);
  }

  // ---------------------------------------------------------------- lexemes

  datatype Lexeme =
    | Mark(mark: Kind)
    | Blank(b: byte)
    | Numeral(parts: NumberParts)
    | Plain(c: nat)
    | Short(b: byte)
    | Code(h: seq<byte>)
  {
    predicate Valid() {
      match this
      case Mark(k) =>
        k in {ObjectOpen, ObjectClose, ArrayOpen, ArrayClose, True, False, Null, ValueSeparator, StringDelimiter,
              KvSeparator, Bom}
      case Blank(b) => b == 0x20 || b == 0x09 || b == 0x0A || b == 0x0D
      case Numeral(parts) => parts.Valid() && parts.InLimits()
      case Plain(c) => IsUnescaped(c)
      case Short(b) =>
        b == 0x22 || b == 0x5C || b == 0x2F || b == 0x62 || b == 0x66 || b == 0x6E || b == 0x72 || b == 0x74
      case Code(h) => |h| == 4 && forall i | 0 <= i < 4 ::
        0x30 <= h[i] <= 0x39 || 0x41 <= h[i] <= 0x46 || 0x61 <= h[i] <= 0x66
    }

    function Kind(): Kind {
      match this
      case Mark(k) => k
      case Blank(_) => Whitespace
      case Numeral(_) => JsonStates.Number
      case Plain(_) => UnicodeCharacter
      case Short(_) => EscapeSequence
      case Code(_) => EscapedUnicodeCharcode
    }

    function Bytes(): seq<byte>
      requires Valid()
    {
      match this
      case Mark(k) => MarkBytes(k)
      case Blank(b) => [b]
      case Numeral(parts) => parts.Bytes()
      case Plain(c) => Utf8(c)
      case Short(b) => [0x5C, b]
      case Code(h) => [0x5C, 0x75] + h
    }

    function Token(): Token
      requires Valid()
    {
      match this
      case Mark(k) => Simple(k)
      case Blank(b) => Space(b)
      case Numeral(parts) => NumberToken(parts.Number())
      case Plain(c) => Character(Merge(Utf8(c)), |Utf8(c)|)
      case Short(b) => Escape(b)
      case Code(h) => EscapedCharacter(Merge(h), 4)
    }
  }

  function MarkBytes(k: Kind): seq<byte> {
    match k
    case ObjectOpen => [0x7B]
    case ObjectClose => [0x7D]
    case ArrayOpen => [0x5B]
    case ArrayClose => [0x5D]
    case True => [0x74, 0x72, 0x75, 0x65]
    case False => [0x66, 0x61, 0x6C, 0x73, 0x65]
    case Null => [0x6E, 0x75, 0x6C, 0x6C]
    case ValueSeparator => [0x2C]
    case StringDelimiter => [0x22]
    case KvSeparator => [0x3A]
    case Bom => [0xEF, 0xBB, 0xBF]
    case _ => []
  }

  /** Each lexeme is the text of a canonical token of its kind. */
  lemma LexemeIs(x: Lexeme)
    requires x.Valid()
    ensures var t := x.Token();
            t.Kind() == x.Kind() && Canonical(x.Kind().IsCharacter(), t) && JsonTokens.Text(t) == x.Bytes()
  {
    hide Utf8, CharacterOk, Merge, LowBytes, NumberText, NumberOk, NumberParts.Bytes, NumberParts.Number,
      NumberParts.InLimits, NumberParts.Valid;
    match x {
      case Numeral(parts) => NumberIs(parts);
      case Plain(c) =>
        Utf8Is(c);
        MergeBack(Utf8(c));
      case Code(h) => MergeBack(h);
      case _ =>
    }
  }

  /** Each lexeme is found at the head of the input; a quote also inside a string. */
  lemma LexemeFound(x: Lexeme, inString: bool, rest: seq<byte>)
    requires x.Valid() && (x.Numeral? ==> EndsNumber(rest))
    requires inString == x.Kind().IsCharacter() || (inString && x == Mark(StringDelimiter))
    ensures var s := x.Bytes() + rest; s != [] && Scan(inString, s) == Found(x.Token(), |x.Bytes()|)
  {
    hide JsonTokens.Text, Lexeme.Token, Lexeme.Bytes, ScanString, ScanOutside;
    LexemeIs(x);
    QuoteIs(x);
    SeparatedIs(x, rest);
    TextNotEmpty(inString, x.Token());
    if inString {
      StringScans(x.Token(), rest);
    } else {
      OutsideScans(x.Token(), rest);
    }
  }

  lemma QuoteIs(x: Lexeme)
    requires x.Valid()
    ensures x == Mark(StringDelimiter) ==> Canonical(true, x.Token())
  {
  }

  lemma SeparatedIs(x: Lexeme, rest: seq<byte>)
    requires x.Valid() && (x.Numeral? ==> EndsNumber(rest))
    ensures Separated(x.Token(), rest)
  {
    hide NumberParts.Number;
  }

  // ---------------------------------------------------------------- whole texts

  predicate AllValid(xs: seq<Lexeme>) {
    forall i | 0 <= i < |xs| :: xs[i].Valid()
  }

  function KindsOfLexemes(xs: seq<Lexeme>): seq<Kind> {
    seq(|xs|, i requires 0 <= i < |xs| => xs[i].Kind())
  }

  function BytesOf(xs: seq<Lexeme>): seq<byte>
    requires AllValid(xs)
  {
    if xs == [] then [] else xs[0].Bytes() + BytesOf(xs[1..])
  }

  function TokensOf(xs: seq<Lexeme>): (ts: seq<Token>)
    requires AllValid(xs)
    ensures |ts| == |xs|
  {
    seq(|xs|, i requires 0 <= i < |xs| => xs[i].Token())
  }

  /** In a run that the grammar allows, what follows a number ends it. */
  lemma NumberEnds(stack: Stack, capacity: nat, xs: seq<Lexeme>)
    requires Sound(stack, capacity) && IsSettled(Top(stack)) && AllValid(xs)
    requires Run(stack, capacity, KindsOfLexemes(xs)).Reached?
    ensures EndsNumber(BytesOf(xs))
  {
    hide Step;
    if xs != [] {
      assert KindsOfLexemes(xs)[0] == xs[0].Kind();
      AfterSettled(stack, capacity, xs[0].Kind());
    }
  }

  lemma {:induction false} LexemesSpelled(stack: Stack, capacity: nat, xs: seq<Lexeme>)
    requires Sound(stack, capacity) && OpenBelow(stack) && AllValid(xs)
    requires Run(stack, capacity, KindsOfLexemes(xs)).Reached?
    ensures JsonTexts.Spelled(TokensOf(xs)) && TextOf(TokensOf(xs)) == BytesOf(xs)
    ensures KindsOf(TokensOf(xs)) == KindsOfLexemes(xs)
    decreases |xs|
  {
    hide Step, Canonical, JsonTokens.Text, Separated, Lexeme.Bytes, Lexeme.Token, OpenBelow, EndsNumber,
      Lexeme.Valid;
    var ts := TokensOf(xs);
    forall i | 0 <= i < |xs| ensures ts[i].Kind() == xs[i].Kind() {
      LexemeIs(xs[i]);
    }
    if xs != [] {
      var x, kinds := xs[0], KindsOfLexemes(xs);
      LexemeIs(x);
      assert kinds[0] == x.Kind() && kinds[1..] == KindsOfLexemes(xs[1..]);
      assert ts[0] == x.Token() && ts[1..] == TokensOf(xs[1..]);
      StepSound(stack, capacity, x.Kind());
      StepOpenBelow(stack, capacity, x.Kind());
      var next := Step(stack, capacity, x.Kind()).stack;
      LexemesSpelled(next, capacity, xs[1..]);
      if x.Numeral? {
        NumberEnds(next, capacity, xs[1..]);
      }
      SeparatedIs(x, BytesOf(xs[1..]));
    }
  }

  /** Every document of the grammar within the nesting limit, written with lexemes within the limits of numbers, is read
      to its end, token by token as it was written. */
  lemma DocumentRead(capacity: nat, d: Document, xs: seq<Lexeme>)
    requires capacity >= 2 && DocumentFits(d, capacity) && AllValid(xs) && KindsOfLexemes(xs) == DocumentYield(d)
    ensures ReadTokens(INITIAL_STACK, capacity, BytesOf(xs)) == TokensRead(TokensOf(xs), |BytesOf(xs)|, [Root])
  {
    hide ReadTokens, DocumentFits, DocumentYield, Run, TokensOk;
    var ts, s := TokensOf(xs), BytesOf(xs);
    InitialSound(capacity);
    DocumentAccepted(capacity, d);
    LexemesSpelled(INITIAL_STACK, capacity, xs);
    JsonTexts.SpelledExactly(INITIAL_STACK, capacity, ts);
    TokenizeExactly(INITIAL_STACK, capacity, s, ts);
    TokensRun(INITIAL_STACK, capacity, s);
  }
}
