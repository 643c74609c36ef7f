/** The tokenizer (json_tokenizer.c) over one contiguous input, and its exact relation to the text of tokens. */
module JsonTokenizer {
  import opened Arithmetic
  import opened Bitwise
  import opened Common
  import opened JsonStates
  import opened JsonTokens

  const ESCAPE_CHARACTERS: seq<byte> := [0x5C, 0x22, 0x2F, 0x62, 0x66, 0x6E, 0x72, 0x74]
  const TENTH_OF_MAX_UINT64: nat := 0xFFFF_FFFF_FFFF_FFFF / 10
  const MAX_LEADING_ZEROES: nat := 80

  predicate IsDigit(b: byte) {
    0x30 <= b <= 0x39
  }

  predicate IsHex(b: byte) {
    IsDigit(b) || 0x61 <= b <= 0x66 || 0x41 <= b <= 0x46
  }

  /** Length of a UTF-8 sequence by its first byte, zero if it cannot start one. */
  function Utf8Length(b: byte): (n: nat)
    ensures n <= 4
  {
    if b <= 0x7F then 1
    else if b <= 0xC1 then 0
    else if b <= 0xDF then 2
    else if b <= 0xEF then 3
    else if b <= 0xF4 then 4
    else 0
  }

  predicate IsContinuation(b: byte) {
    0x80 <= b <= 0xBF
  }

  /** A token at the head of the input, and how many bytes it takes. */
  datatype Scanned = Nothing | Found(token: Token, length: nat)

  // ---------------------------------------------------------------- inside strings

  function ScanString(s: seq<byte>): Scanned
    requires s != []
  {
    if s[0] == 0x22 then Found(Simple(StringDelimiter), 1)
    else if s[0] == 0x5C then
      if |s| < 2 then Nothing
      else if s[1] in ESCAPE_CHARACTERS then Found(Escape(s[1]), 2)
      else if s[1] == 0x75 && |s| >= 6
        && forall i | 2 <= i < 6 :: IsHex(s[i]) then Found(EscapedCharacter(Merge(s[2..6]), 4), 6)
      else Nothing
    else
      var n := Utf8Length(s[0]);
      if n == 0 || |s| < n || (n == 1 && s[0] <= 0x1F) then Nothing
      else if forall i | 1 <= i < n :: IsContinuation(s[i]) then Found(Character(Merge(s[..n]), n), n)
      else Nothing
  }

  // ---------------------------------------------------------------- numbers

  /** Zeros and value read, and where reading stopped; both are zero if there is no acceptable number. */
  datatype UintRead = UintRead(zeroes: nat, value: nat, end: nat) {
    predicate IsInvalid() {
      value == 0 && zeroes == 0
    }
  }

  predicate WillOverflow(value: nat, digit: nat) {
    value >= TENTH_OF_MAX_UINT64 - digit
  }

  function ReadDecimal(s: seq<byte>, i: nat, zeroes: nat, value: nat): (r: UintRead)
    requires i <= |s|
    ensures i <= r.end <= |s|
    decreases |s| - i
  {
    if i == |s| || !IsDigit(s[i]) then UintRead(zeroes, value, i)
    else if s[i] == 0x30 && value == 0 then
      if zeroes + 1 >= MAX_LEADING_ZEROES then UintRead(0, 0, i) else ReadDecimal(s, i + 1, zeroes + 1, 0)
    else if WillOverflow(value, s[i] - 0x30) then UintRead(0, 0, i)
    else ReadDecimal(s, i + 1, zeroes, 10 * value + (s[i] - 0x30))
  }

  /** The part after the decimal point, if there is one. */
  datatype Part = NoPart | BadPart | GoodPart(read: UintRead)

  function ScanFraction(s: seq<byte>, i: nat): (p: Part)
    requires i <= |s|
    ensures p.GoodPart? ==> i < p.read.end <= |s|
  {
    if i == |s| || s[i] != 0x2E then NoPart
    else if |s| - i < 2 then BadPart
    else
      var r := ReadDecimal(s, i + 1, 0, 0);
      if r.IsInvalid() then BadPart else GoodPart(r)
  }

  function ScanExponent(s: seq<byte>, i: nat): (p: Part)
    requires i <= |s|
    ensures p.GoodPart? ==> i < p.read.end <= |s|
  {
    if i == |s| || (s[i] != 0x65 && s[i] != 0x45) then NoPart
    else if |s| - i < 2 then BadPart
    else
      var signed := s[i + 1] == 0x2D || s[i + 1] == 0x2B;
      if signed && |s| - i < 3 then BadPart
      else
        var r := ReadDecimal(s, if signed then i + 2 else i + 1, 0, 0);
        if r.IsInvalid() || r.value > 0xFFFF then BadPart else GoodPart(r)
  }

  function ScanNumber(s: seq<byte>): Scanned
    requires s != []
  {
    var negative := s[0] == 0x2D;
    if negative && |s| < 2 then Nothing
    else
      var integer := ReadDecimal(s, if negative then 1 else 0, 0, 0);
      if integer.IsInvalid() || integer.zeroes > 1 || (integer.zeroes > 0 && integer.value > 0) then Nothing
      else
        var fraction := ScanFraction(s, integer.end);
        if fraction.BadPart? then Nothing
        else
          var i := if fraction.GoodPart? then fraction.read.end else integer.end;
          var exponent := ScanExponent(s, i);
          if exponent.BadPart? then Nothing
          else
            var e := exponent.GoodPart?;
            var flags := NumberFlags(integer.zeroes > 0, negative, fraction.GoodPart?, e,
                                     e && s[i] == 0x45, e && s[i + 1] == 0x2D, e && s[i + 1] == 0x2B);
            ReadDecimalBounds(s);
            Found(NumberToken(JsonNumber(flags, integer.value,
                                         if fraction.GoodPart? then fraction.read.zeroes else 0,
                                         if fraction.GoodPart? then fraction.read.value else 0,
                                         if e then exponent.read.zeroes else 0,
                                         if e then exponent.read.value else 0)),
                  if e then exponent.read.end else i)
  }

  lemma {:induction false} ZeroesBounded(s: seq<byte>, i: nat, zeroes: nat, value: nat)
    requires i <= |s| && zeroes < MAX_LEADING_ZEROES
    ensures ReadDecimal(s, i, zeroes, value).zeroes < MAX_LEADING_ZEROES
    decreases |s| - i
  {
    if i < |s| && IsDigit(s[i]) {
      if s[i] == 0x30 && value == 0 {
        if zeroes + 1 < MAX_LEADING_ZEROES {
          ZeroesBounded(s, i + 1, zeroes + 1, 0);
        }
      } else if !WillOverflow(value, s[i] - 0x30) {
        ZeroesBounded(s, i + 1, zeroes, 10 * value + (s[i] - 0x30));
      }
    }
  }

  lemma ReadDecimalBounds(s: seq<byte>)
    ensures forall i: nat | i <= |s| :: ReadDecimal(s, i, 0, 0).zeroes < MAX_LEADING_ZEROES
  {
    forall i: nat | i <= |s| ensures ReadDecimal(s, i, 0, 0).zeroes < MAX_LEADING_ZEROES {
      ZeroesBounded(s, i, 0, 0);
    }
  }

  // ---------------------------------------------------------------- outside strings

  function StartKind(b: byte): Kind {
    if b == 0x7B then ObjectOpen
    else if b == 0x7D then ObjectClose
    else if b == 0x5B then ArrayOpen
    else if b == 0x5D then ArrayClose
    else if b == 0x74 then True
    else if b == 0x66 then False
    else if b == 0x6E then Null
    else if b == 0x2C then ValueSeparator
    else if b == 0x3A then KvSeparator
    else if b == 0x20 || b == 0x0A || b == 0x0D || b == 0x09 then Whitespace
    else if b == 0x22 then StringDelimiter
    else if IsDigit(b) || b == 0x2D then Number
    else if b == 0xEF then Bom
    else Invalid
  }

  /** A token of fixed text; its first byte is already known to fit. */
  function ScanFixed(s: seq<byte>, kind: Kind): Scanned
  {
    if SimpleText(kind) <= s then Found(Simple(kind), |SimpleText(kind)|) else Nothing
  }

  function ScanOutside(s: seq<byte>): Scanned
    requires s != []
  {
    match StartKind(s[0])
    case Invalid => Nothing
    case Number => ScanNumber(s)
    case Whitespace => Found(Space(s[0]), 1)
    case kind => ScanFixed(s, kind)
  }

  function Scan(inString: bool, s: seq<byte>): Scanned
    requires s != []
  {
    if inString then ScanString(s) else ScanOutside(s)
  }

  // ---------------------------------------------------------------- text of what is scanned

  lemma {:induction false} ReadDecimalText(s: seq<byte>, i: nat, zeroes: nat, value: nat)
    requires i <= |s|
    ensures var r := ReadDecimal(s, i, zeroes, value);
            !r.IsInvalid() ==> ZeroesAndDigits(zeroes, value) + s[i..r.end] == ZeroesAndDigits(r.zeroes, r.value)
    decreases |s| - i
  {
    hide Digits, WillOverflow, ZeroesAndDigits;
    var r := ReadDecimal(s, i, zeroes, value);
    if i == |s| || !IsDigit(s[i]) {
      assert s[i..i] == [];
    } else if s[i] == 0x30 && value == 0 {
      if zeroes + 1 < MAX_LEADING_ZEROES {
        ReadDecimalText(s, i + 1, zeroes + 1, 0);
        AppendZero(zeroes);
        assert s[i..r.end] == [s[i]] + s[i + 1..r.end];
      }
    } else if !WillOverflow(value, s[i] - 0x30) {
      ReadDecimalText(s, i + 1, zeroes, 10 * value + (s[i] - 0x30));
      AppendDigitText(zeroes, value, s[i] - 0x30);
      assert s[i..r.end] == [s[i]] + s[i + 1..r.end];
    }
  }

  lemma AppendZero(zeroes: nat)
    ensures ZeroesAndDigits(zeroes + 1, 0) == ZeroesAndDigits(zeroes, 0) + [0x30]
  {
  }

  lemma AppendDigitText(zeroes: nat, value: nat, digit: nat)
    requires digit < 10 && (value > 0 || digit > 0)
    ensures ZeroesAndDigits(zeroes, 10 * value + digit) == ZeroesAndDigits(zeroes, value) + [0x30 + digit]
  {
    hide Digits;
    AppendDigit(value, digit);
  }

  lemma AppendDigit(value: nat, digit: nat)
    requires digit < 10 && (value > 0 || digit > 0)
    ensures Digits(10 * value + digit) == (if value == 0 then [] else Digits(value)) + [0x30 + digit]
  {
    var v := 10 * value + digit;
    assert v / 10 == value && v % 10 == digit;
  }

  // ---------------------------------------------------------------- canonical tokens

  /** Values the digit loop can reach without its overflow test stopping it. */
  predicate Readable(v: nat) {
    v / 10 + v % 10 < TENTH_OF_MAX_UINT64
  }

  /** The overflow test is stricter than 64 bits: it refuses the largest such values. */
  lemma LargestRefused()
    ensures !Readable(0xFFFF_FFFF_FFFF_FFFF) && forall v: nat | Readable(v) :: v < 0xFFFF_FFFF_FFFF_FFFF
  {
  }

  /** The least value it refuses, close to two to the 64; values above it may be readable again, by their last digit. */
  lemma LeastRefused()
    ensures !Readable(18_446_744_073_709_551_529)
    ensures forall v: nat | v < 18_446_744_073_709_551_529 :: Readable(v)
  {
  }

  predicate PartOk(zeroes: nat, v: nat) {
    zeroes < MAX_LEADING_ZEROES && (zeroes > 0 || v > 0) && Readable(v)
  }

  /** The numbers a text can be read as: one flag set for each part of the text, no superfluous field. */
  predicate NumberOk(n: JsonNumber) {
    var fraction, exponent := n.flags.fraction, n.flags.exponent;
    var upper, minus, plus := n.flags.upper, n.flags.minus, n.flags.plus;
    && n.flags.zero == (n.integerPart == 0) && Readable(n.integerPart)
    && (if fraction then PartOk(n.fractionZeroes, n.fractionPart) else n.fractionZeroes == n.fractionPart == 0)
    && (if exponent then PartOk(n.exponentZeroes, n.exponentPart) && n.exponentPart <= 0xFFFF && !(minus && plus)
        else n.exponentZeroes == n.exponentPart == 0 && !upper && !minus && !plus)
  }

  /** The tokens that can be found inside or outside a string. */
  predicate Canonical(inString: bool, t: Token) {
    match t
    case Simple(k) =>
      if inString then k.StringDelimiter? else SimpleText(k) != []
    case Space(b) => !inString && b in [0x20, 0x0A, 0x0D, 0x09]
    case Escape(b) => inString && b in ESCAPE_CHARACTERS
    case EscapedCharacter(value, length) =>
      inString && length == 4 && Merge(LowBytes(value, 4)) == value
        && forall i | 0 <= i < 4 :: IsHex(LowBytes(value, 4)[i])
    case Character(value, length) =>
      inString && length > 0 && Merge(LowBytes(value, length)) == value && CharacterOk(LowBytes(value, length))
    case NumberToken(n) => !inString && NumberOk(n)
  }

  predicate CharacterOk(s: seq<byte>)
    requires s != []
  {
    && Utf8Length(s[0]) == |s| && s[0] != 0x22 && s[0] != 0x5C && s[0] > 0x1F
    && forall i | 1 <= i < |s| :: IsContinuation(s[i])
  }

  /** What follows does not continue the token; only numbers can be continued. */
  predicate Separated(t: Token, rest: seq<byte>) {
    t.NumberToken? && rest != [] ==>
      && !IsDigit(rest[0])
      && (!t.number.flags.exponent ==> rest[0] != 0x65 && rest[0] != 0x45)
      && (!t.number.flags.exponent && !t.number.flags.fraction ==> rest[0] != 0x2E)
  }

  // ---------------------------------------------------------------- scanned implies canonical

  lemma {:induction false} ReadDecimalReadable(s: seq<byte>, i: nat, zeroes: nat, value: nat)
    requires i <= |s| && Readable(value) && zeroes < MAX_LEADING_ZEROES
    ensures var r := ReadDecimal(s, i, zeroes, value);
            && Readable(r.value) && r.zeroes < MAX_LEADING_ZEROES
            && (!r.IsInvalid() ==> r.end == |s| || !IsDigit(s[r.end]))
    decreases |s| - i
  {
    if i < |s| && IsDigit(s[i]) {
      if s[i] == 0x30 && value == 0 {
        if zeroes + 1 < MAX_LEADING_ZEROES {
          ReadDecimalReadable(s, i + 1, zeroes + 1, 0);
        }
      } else if !WillOverflow(value, s[i] - 0x30) {
        ReadDecimalReadable(s, i + 1, zeroes, 10 * value + (s[i] - 0x30));
      }
    }
  }

  /** All there is to know about one run of digits. */
  lemma DecimalScanned(s: seq<byte>, i: nat)
    requires i <= |s| && !ReadDecimal(s, i, 0, 0).IsInvalid()
    ensures var r := ReadDecimal(s, i, 0, 0);
            && PartOk(r.zeroes, r.value) && s[i..r.end] == ZeroesAndDigits(r.zeroes, r.value)
            && (r.end == |s| || !IsDigit(s[r.end]))
  {
    ReadDecimalReadable(s, i, 0, 0);
    ReadDecimalText(s, i, 0, 0);
    assert ZeroesAndDigits(0, 0) == [];
  }

  lemma FractionScanned(s: seq<byte>, i: nat)
    requires i <= |s| && ScanFraction(s, i).GoodPart?
    ensures var r := ScanFraction(s, i).read;
            && PartOk(r.zeroes, r.value) && s[i..r.end] == [0x2E] + ZeroesAndDigits(r.zeroes, r.value)
            && (r.end == |s| || !IsDigit(s[r.end]))
  {
    hide ReadDecimal;
    DecimalScanned(s, i + 1);
    var r := ScanFraction(s, i).read;
    assert s[i..r.end] == [s[i]] + s[i + 1..r.end];
  }

  lemma ExponentScanned(s: seq<byte>, i: nat)
    requires i <= |s| && ScanExponent(s, i).GoodPart?
    ensures var r := ScanExponent(s, i).read;
            && PartOk(r.zeroes, r.value) && r.value <= 0xFFFF && i + 1 < |s|
            && s[i..r.end] == [s[i]] + ((if s[i + 1] == 0x2B || s[i + 1] == 0x2D then [s[i + 1]] else [])
               + ZeroesAndDigits(r.zeroes, r.value))
            && (r.end == |s| || !IsDigit(s[r.end]))
  {
    hide ReadDecimal;
    var r := ScanExponent(s, i).read;
    if s[i + 1] == 0x2B || s[i + 1] == 0x2D {
      DecimalScanned(s, i + 2);
      assert s[i..r.end] == [s[i]] + ([s[i + 1]] + s[i + 2..r.end]);
    } else {
      DecimalScanned(s, i + 1);
      assert s[i..r.end] == [s[i]] + ([] + s[i + 1..r.end]);
    }
  }

  /** The parts of a scanned number: where each begins, and its flags and fields. */
  lemma NumberParts(s: seq<byte>) returns (a: nat, b: nat, c: nat, integer: UintRead, fraction: Part, exponent: Part)
    requires s != [] && ScanNumber(s).Found?
    ensures a == (if s[0] == 0x2D then 1 else 0) && a <= |s| && integer == ReadDecimal(s, a, 0, 0)
    ensures !integer.IsInvalid() && integer.zeroes <= 1 && (integer.zeroes > 0 ==> integer.value == 0)
    ensures b == integer.end <= |s| && fraction == ScanFraction(s, b) && !fraction.BadPart?
    ensures c == (if fraction.GoodPart? then fraction.read.end else b) && b <= c <= |s|
    ensures exponent == ScanExponent(s, c) && !exponent.BadPart? && (exponent.GoodPart? ==> c + 1 < |s|)
    ensures var e, f := exponent.GoodPart?, ScanNumber(s);
            && f.length == (if e then exponent.read.end else c) && f.length <= |s| && f.token.NumberToken?
            && var n := f.token.number;
            && n.flags.zero == (integer.zeroes > 0)
            && n.flags.negative == (a == 1) && n.flags.fraction == fraction.GoodPart?
            && n.flags.exponent == e && n.flags.upper == (e && s[c] == 0x45)
            && n.flags.minus == (e && s[c + 1] == 0x2D)
            && n.flags.plus == (e && s[c + 1] == 0x2B)
            && n.integerPart == integer.value
            && (if fraction.GoodPart? then n.fractionZeroes == fraction.read.zeroes
               && n.fractionPart == fraction.read.value
                else n.fractionZeroes == n.fractionPart == 0)
            && (if e then n.exponentZeroes == exponent.read.zeroes && n.exponentPart == exponent.read.value
                else n.exponentZeroes == n.exponentPart == 0)
  {
    hide ReadDecimal, ScanFraction;
    a := if s[0] == 0x2D then 1 else 0;
    integer := ReadDecimal(s, a, 0, 0);
    b := integer.end;
    fraction := ScanFraction(s, b);
    c := if fraction.GoodPart? then fraction.read.end else b;
    exponent := ScanExponent(s, c);
    var e := exponent.GoodPart?;
  }

  lemma NumberFound(s: seq<byte>)
    requires s != []
    ensures ScanNumber(s).Found? <==>
            && (s[0] == 0x2D ==> |s| >= 2)
            && var integer := ReadDecimal(s, if s[0] == 0x2D then 1 else 0, 0, 0);
            && !integer.IsInvalid() && integer.zeroes <= 1 && (integer.zeroes == 0 || integer.value == 0)
            && var fraction := ScanFraction(s, integer.end);
            && !fraction.BadPart?
            && !ScanExponent(s, if fraction.GoodPart? then fraction.read.end else integer.end).BadPart?
  {
    hide ReadDecimal, ScanFraction, ScanExponent;
  }

  lemma NumberScanned(s: seq<byte>)
    requires s != [] && ScanNumber(s).Found?
    ensures var f := ScanNumber(s);
            && f.token.NumberToken? && 0 < f.length <= |s| && NumberOk(f.token.number)
            && NumberText(f.token.number) == s[..f.length] && Separated(f.token, s[f.length..])
  {
    hide ScanNumber, NumberOk, NumberText;
    NumberFields(s);
    NumberSpelling(s);
    NumberEnd(s);
  }

  lemma NumberFields(s: seq<byte>)
    requires s != [] && ScanNumber(s).Found?
    ensures ScanNumber(s).token.NumberToken? && NumberOk(ScanNumber(s).token.number)
  {
    hide ReadDecimal, ScanFraction, ScanExponent, ScanNumber, ZeroesAndDigits, Readable;
    var a, b, c, integer, fraction, exponent := NumberParts(s);
    DecimalScanned(s, a);
    if fraction.GoodPart? {
      FractionScanned(s, b);
    }
    if exponent.GoodPart? {
      ExponentScanned(s, c);
    }
  }

  /** The optional parts print as the slices they were read from. */
  lemma FractionSpelling(s: seq<byte>, b: nat, n: JsonNumber)
    requires b <= |s| && var p := ScanFraction(s, b);
             !p.BadPart? && n.flags.fraction == p.GoodPart?
             && (p.GoodPart? ==> n.fractionZeroes == p.read.zeroes && n.fractionPart == p.read.value)
    ensures var p := ScanFraction(s, b); FractionText(n) == s[b..if p.GoodPart? then p.read.end else b]
  {
    hide ScanFraction, ZeroesAndDigits, PartOk;
    if n.flags.fraction {
      FractionScanned(s, b);
    }
  }

  lemma ExponentSpelling(s: seq<byte>, c: nat, n: JsonNumber)
    requires c <= |s| && var p := ScanExponent(s, c);
             !p.BadPart? && n.flags.exponent == p.GoodPart?
             && (p.GoodPart? ==>
                   && c + 1 < |s| && n.exponentZeroes == p.read.zeroes && n.exponentPart == p.read.value
                   && n.flags.upper == (s[c] == 0x45) && n.flags.minus == (s[c + 1] == 0x2D)
                   && n.flags.plus == (s[c + 1] == 0x2B))
    ensures var p := ScanExponent(s, c); ExponentText(n) == s[c..if p.GoodPart? then p.read.end else c]
  {
    hide ScanExponent, ZeroesAndDigits, PartOk;
    ExponentStart(s, c);
    if n.flags.exponent {
      ExponentScanned(s, c);
    }
  }

  lemma NumberSpelling(s: seq<byte>)
    requires s != [] && ScanNumber(s).Found?
    ensures var f := ScanNumber(s);
            f.token.NumberToken? && 0 < f.length <= |s| && NumberText(f.token.number) == s[..f.length]
  {
    hide ReadDecimal, ScanFraction, ScanExponent, ScanNumber, ZeroesAndDigits, PartOk, Digits, FractionText,
      ExponentText;
    var a, b, c, integer, fraction, exponent := NumberParts(s);
    var f := ScanNumber(s);
    DecimalScanned(s, a);
    IntegerText(integer.zeroes, integer.value);
    FractionSpelling(s, b, f.token.number);
    ExponentSpelling(s, c, f.token.number);
    FourSlices(s, a, b, c, f.length);
    DigitsNotEmpty(integer.value);
  }

  lemma DigitsNotEmpty(v: nat)
    ensures |Digits(v)| > 0
  {
  }

  lemma NumberEnd(s: seq<byte>)
    requires s != [] && ScanNumber(s).Found?
    ensures ScanNumber(s).length <= |s| && Separated(ScanNumber(s).token, s[ScanNumber(s).length..])
  {
    hide ReadDecimal, ScanFraction, ScanExponent, ScanNumber, ZeroesAndDigits, PartOk;
    var a, b, c, integer, fraction, exponent := NumberParts(s);
    DecimalScanned(s, a);
    if fraction.GoodPart? {
      FractionScanned(s, b);
    }
    if exponent.GoodPart? {
      ExponentScanned(s, c);
    }
    ExponentStart(s, c);
    FractionStart(s, b);
  }

  lemma FourSlices(s: seq<byte>, a: nat, b: nat, c: nat, d: nat)
    requires a <= b <= c <= d <= |s|
    ensures s[..d] == s[..a] + (s[a..b] + (s[b..c] + s[c..d]))
  {
  }

  lemma IntegerText(zeroes: nat, value: nat)
    requires zeroes <= 1 && (zeroes > 0 ==> value == 0) && (zeroes > 0 || value > 0)
    ensures ZeroesAndDigits(zeroes, value) == Digits(value)
  {
    if zeroes == 1 {
      assert Repeat<byte>(0x30, 1) == [0x30];
    }
  }

  lemma ExponentStart(s: seq<byte>, i: nat)
    requires i <= |s|
    ensures ScanExponent(s, i).NoPart? <==> i == |s| || (s[i] != 0x65 && s[i] != 0x45)
    ensures ScanExponent(s, i).GoodPart? ==> i < |s| && (s[i] == 0x65 || s[i] == 0x45)
  {
  }

  lemma FractionStart(s: seq<byte>, i: nat)
    requires i <= |s|
    ensures ScanFraction(s, i).NoPart? <==> i == |s| || s[i] != 0x2E
  {
  }

  // ---------------------------------------------------------------- canonical implies scanned

  lemma {:induction false} ReadZeroes(s: seq<byte>, i: nat, zeroes: nat, more: nat)
    requires i + more <= |s| && zeroes + more < MAX_LEADING_ZEROES && s[i..i + more] == Repeat(0x30, more)
    ensures ReadDecimal(s, i, zeroes, 0) == ReadDecimal(s, i + more, zeroes + more, 0)
    decreases more
  {
    if more > 0 {
      assert s[i] == s[i..i + more][0] == 0x30;
      assert s[i + 1..i + more] == s[i..i + more][1..] == Repeat(0x30, more - 1);
      ReadZeroes(s, i + 1, zeroes + 1, more - 1);
    }
  }

  lemma {:induction false} ReadDigits(s: seq<byte>, i: nat, zeroes: nat, v: nat)
    requires v > 0 && Readable(v) && i + |Digits(v)| <= |s| && s[i..i + |Digits(v)|] == Digits(v)
    ensures ReadDecimal(s, i, zeroes, 0) == ReadDecimal(s, i + |Digits(v)|, zeroes, v)
    decreases v
  {
    var j := i + |Digits(v)| - 1;
    assert s[j] == Digits(v)[|Digits(v)| - 1] == 0x30 + v % 10;
    if v >= 10 {
      assert s[i..j] == s[i..j + 1][..j - i] == Digits(v / 10);
      ReadDigits(s, i, zeroes, v / 10);
    }
  }

  lemma ReadStops(s: seq<byte>, i: nat, zeroes: nat, v: nat)
    requires i <= |s| && (i == |s| || !IsDigit(s[i]))
    ensures ReadDecimal(s, i, zeroes, v) == UintRead(zeroes, v, i)
  {
  }

  lemma ReadBackDecimal(s: seq<byte>, i: nat, zeroes: nat, v: nat)
    requires PartOk(zeroes, v)
    requires var end := i + |ZeroesAndDigits(zeroes, v)|;
             end <= |s| && s[i..end] == ZeroesAndDigits(zeroes, v) && (end == |s| || !IsDigit(s[end]))
    ensures ReadDecimal(s, i, 0, 0) == UintRead(zeroes, v, i + |ZeroesAndDigits(zeroes, v)|)
  {
    hide Readable;
    var text := ZeroesAndDigits(zeroes, v);
    ReadStops(s, i + |text|, zeroes, v);
    hide ReadDecimal, Digits;
    assert s[i..i + zeroes] == s[i..i + |text|][..zeroes] == Repeat(0x30, zeroes);
    ReadZeroes(s, i, 0, zeroes);
    if v > 0 {
      assert s[i + zeroes..i + |text|] == s[i..i + |text|][zeroes..] == Digits(v);
      ReadDigits(s, i + zeroes, zeroes, v);
    }
  }

  lemma {:induction false} DigitsAreDigits(v: nat)
    ensures forall k | 0 <= k < |Digits(v)| :: IsDigit(Digits(v)[k])
    ensures Digits(v)[0] == 0x30 <==> v == 0
    decreases v
  {
    if v >= 10 {
      DigitsAreDigits(v / 10);
    }
  }

  lemma PartStartsWithDigit(zeroes: nat, v: nat)
    requires zeroes > 0 || v > 0
    ensures ZeroesAndDigits(zeroes, v) != [] && IsDigit(ZeroesAndDigits(zeroes, v)[0])
  {
    DigitsAreDigits(v);
  }

  lemma PiecesOf(u: seq<byte>, v: seq<byte>, w: seq<byte>, x: seq<byte>, rest: seq<byte>)
    ensures var s, a, b, c := (u + (v + (w + x))) + rest, |u|, |u| + |v|, |u| + |v| + |w|;
            && s[..a] == u && s[a..b] == v && s[b..c] == w && s[c..c + |x|] == x && s[c + |x|..] == rest
  {
  }

  /** The pieces of a number's text, in order, and what follows. */
  lemma NumberPieces(n: JsonNumber, rest: seq<byte>) returns (a: nat, b: nat, c: nat, d: nat)
    ensures var s := NumberText(n) + rest;
            && a == (if n.flags.negative then 1 else 0) && a < b <= c <= d <= |s| && d == |NumberText(n)|
            && (a == 1 ==> s[0] == 0x2D)
            && s[a..b] == Digits(n.integerPart) && s[b..c] == FractionText(n) && s[c..d] == ExponentText(n)
            && s[d..] == rest
  {
    hide Digits, FractionText, ExponentText;
    PiecesOf(if n.flags.negative then [0x2D] else [], Digits(n.integerPart), FractionText(n), ExponentText(n), rest);
    a := if n.flags.negative then 1 else 0;
    b := a + |Digits(n.integerPart)|;
    c := b + |FractionText(n)|;
    d := c + |ExponentText(n)|;
  }

  lemma SliceHead(s: seq<byte>, i: nat, j: nat, t: seq<byte>)
    requires i <= j <= |s| && s[i..j] == t
    ensures |t| == j - i && forall k | 0 <= k < |t| :: s[i + k] == t[k]
  {
    forall k | 0 <= k < |t| ensures s[i + k] == t[k] {
      assert s[i..j][k] == s[i + k];
    }
  }

  lemma FractionScans(s: seq<byte>, n: JsonNumber, b: nat, c: nat)
    requires NumberOk(n) && b <= c <= |s| && s[b..c] == FractionText(n)
    requires c == |s| || (!IsDigit(s[c]) && (!n.flags.fraction ==> s[c] != 0x2E))
    ensures ScanFraction(s, b) == if n.flags.fraction then GoodPart(UintRead(n.fractionZeroes, n.fractionPart, c))
            else NoPart
  {
    hide ReadDecimal;
    SliceHead(s, b, c, FractionText(n));
    if n.flags.fraction {
      var digits := ZeroesAndDigits(n.fractionZeroes, n.fractionPart);
      PartStartsWithDigit(n.fractionZeroes, n.fractionPart);
      assert s[b + 1..c] == s[b..c][1..] == digits;
      ReadBackDecimal(s, b + 1, n.fractionZeroes, n.fractionPart);
    }
  }

  lemma ExponentScans(s: seq<byte>, n: JsonNumber, c: nat, d: nat)
    requires NumberOk(n) && c <= d <= |s| && s[c..d] == ExponentText(n)
    requires d == |s| || (!IsDigit(s[d]) && (!n.flags.exponent ==> s[d] != 0x65 && s[d] != 0x45))
    ensures if n.flags.exponent then
              && ScanExponent(s, c) == GoodPart(UintRead(n.exponentZeroes, n.exponentPart, d)) && c + 1 < |s|
              && (s[c] == 0x45 <==> n.flags.upper)
              && (s[c + 1] == 0x2D <==> n.flags.minus)
              && (s[c + 1] == 0x2B <==> n.flags.plus)
            else ScanExponent(s, c) == NoPart
  {
    hide ReadDecimal, ZeroesAndDigits, Readable, SignText;
    if n.flags.exponent {
      var digits := ZeroesAndDigits(n.exponentZeroes, n.exponentPart);
      PartStartsWithDigit(n.exponentZeroes, n.exponentPart);
      SignCases(n);
      var sign := SignText(n);
      ExponentPieces(s, c, d, if n.flags.upper then 0x45 else 0x65, sign, digits);
      ReadBackDecimal(s, c + 1 + |sign|, n.exponentZeroes, n.exponentPart);
    }
  }

  lemma ExponentPieces(s: seq<byte>, c: nat, d: nat, letter: byte, sign: seq<byte>, digits: seq<byte>)
    requires c <= d <= |s| && s[c..d] == [letter] + (sign + digits) && digits != []
    ensures s[c] == letter && c + 1 < |s| && s[c + 1] == (if sign == [] then digits[0] else sign[0])
    ensures c + 1 + |sign| <= d && s[c + 1 + |sign|..d] == digits && d == c + 1 + |sign| + |digits|
  {
    var t := s[c..d];
    assert t[0] == s[c] && t[1] == s[c + 1];
    assert t[1 + |sign|..] == digits;
  }

  lemma SignCases(n: JsonNumber)
    requires NumberOk(n)
    ensures var t, minus, plus := SignText(n), n.flags.minus, n.flags.plus;
            t == if plus then [0x2B] else if minus then [0x2D] else []
    ensures !(n.flags.minus && n.flags.plus)
  {
  }

  lemma IntegerScans(s: seq<byte>, n: JsonNumber, a: nat, b: nat)
    requires NumberOk(n) && a < b <= |s| && s[a..b] == Digits(n.integerPart) && (b == |s| || !IsDigit(s[b]))
    ensures ReadDecimal(s, a, 0, 0) == UintRead(if n.integerPart == 0 then 1 else 0, n.integerPart, b)
    ensures IsDigit(s[a])
  {
    var zeroes := if n.integerPart == 0 then 1 else 0;
    IntegerText(zeroes, n.integerPart);
    DigitsAreDigits(n.integerPart);
    SliceHead(s, a, b, Digits(n.integerPart));
    ReadBackDecimal(s, a, zeroes, n.integerPart);
  }

  lemma NumberScans(n: JsonNumber, rest: seq<byte>)
    requires NumberOk(n) && Separated(NumberToken(n), rest)
    ensures ScanNumber(NumberText(n) + rest) == Found(NumberToken(n), |NumberText(n)|)
  {
    hide ReadDecimal, ZeroesAndDigits, Readable, PartOk, ScanFraction, ScanExponent;
    var s := NumberText(n) + rest;
    var a, b, c, d := NumberPieces(n, rest);
    assert d < |s| ==> s[d] == rest[0];
    SliceHead(s, b, c, FractionText(n));
    SliceHead(s, c, d, ExponentText(n));
    AfterPart(s, n, b, c, d);
    IntegerScans(s, n, a, b);
    FractionScans(s, n, b, c);
    ExponentScans(s, n, c, d);
    NumberAssembled(s, n, a, b, c, d);
  }

  lemma NumberAssembled(s: seq<byte>, n: JsonNumber, a: nat, b: nat, c: nat, d: nat)
    requires NumberOk(n) && a < b <= c <= d <= |s| && a == (if n.flags.negative then 1 else 0)
    requires (a == 1 ==> s[0] == 0x2D) && IsDigit(s[a])
    requires ReadDecimal(s, a, 0, 0) == UintRead(if n.integerPart == 0 then 1 else 0, n.integerPart, b)
    requires ScanFraction(s, b) == if n.flags.fraction then GoodPart(UintRead(n.fractionZeroes, n.fractionPart, c))
             else NoPart
    requires !n.flags.fraction ==> c == b
    requires if n.flags.exponent then
               && ScanExponent(s, c) == GoodPart(UintRead(n.exponentZeroes, n.exponentPart, d)) && c + 1 < |s|
               && (s[c] == 0x45 <==> n.flags.upper)
               && (s[c + 1] == 0x2D <==> n.flags.minus)
               && (s[c + 1] == 0x2B <==> n.flags.plus)
             else ScanExponent(s, c) == NoPart && d == c
    ensures ScanNumber(s) == Found(NumberToken(n), d)
  {
    hide ReadDecimal, Readable, ScanFraction, ScanExponent;
    ReadDecimalBounds(s);
    hide PartOk;
  }

  /** No part is followed by a byte that would continue it. */
  lemma AfterPart(s: seq<byte>, n: JsonNumber, b: nat, c: nat, d: nat)
    requires NumberOk(n) && b <= c <= d <= |s|
    requires c - b == |FractionText(n)| && d - c == |ExponentText(n)|
    requires forall k | 0 <= k < |FractionText(n)| :: s[b + k] == FractionText(n)[k]
    requires forall k | 0 <= k < |ExponentText(n)| :: s[c + k] == ExponentText(n)[k]
    requires Separated(NumberToken(n), s[d..])
    ensures b == |s| || !IsDigit(s[b])
    ensures c == |s| || (!IsDigit(s[c]) && (!n.flags.fraction ==> s[c] != 0x2E))
    ensures d == |s| || (!IsDigit(s[d]) && (!n.flags.exponent ==> s[d] != 0x65 && s[d] != 0x45))
  {
    hide ZeroesAndDigits, Readable, PartOk;
    assert d < |s| ==> s[d..][0] == s[d];
    if n.flags.exponent {
      assert s[c + 0] == ExponentText(n)[0];
    }
    if n.flags.fraction {
      assert s[b + 0] == FractionText(n)[0];
    }
  }

  // ---------------------------------------------------------------- the exact relation

  lemma StringScanned(s: seq<byte>)
    requires s != [] && ScanString(s).Found?
    ensures var f := ScanString(s);
            0 < f.length <= |s| && Text(f.token) == s[..f.length] && Canonical(true, f.token)
  {
    var f := ScanString(s);
    match f.token {
      case EscapedCharacter(value, _) =>
        MergeBack(s[2..6]);
        assert s[..6] == [s[0], s[1]] + s[2..6];
      case Character(value, length) =>
        MergeBack(s[..length]);
      case _ =>
    }
  }

  lemma OutsideScanned(s: seq<byte>)
    requires s != [] && ScanOutside(s).Found?
    ensures var f := ScanOutside(s);
            0 < f.length <= |s| && Text(f.token) == s[..f.length] && Canonical(false, f.token)
              && Separated(f.token, s[f.length..])
  {
    hide ScanNumber, NumberText, NumberOk;
    if StartKind(s[0]).Number? {
      NumberScanned(s);
    }
  }

  lemma StringScans(t: Token, rest: seq<byte>)
    requires Canonical(true, t)
    ensures ScanString(Text(t) + rest) == Found(t, |Text(t)|)
  {
    var s := Text(t) + rest;
    match t {
      case Simple(_) =>
      case Escape(_) =>
      case EscapedCharacter(value, _) =>
        assert s[2..6] == LowBytes(value, 4);
        assert forall i | 2 <= i < 6 :: s[i] == LowBytes(value, 4)[i - 2];
        assert s[1] == 0x75 && 0x75 !in ESCAPE_CHARACTERS;
      case Character(value, length) =>
        assert s[..length] == LowBytes(value, length);
        assert forall i | 1 <= i < length :: s[i] == LowBytes(value, length)[i];
    }
  }

  lemma SimpleScans(k: Kind, rest: seq<byte>)
    requires SimpleText(k) != []
    ensures ScanOutside(SimpleText(k) + rest) == Found(Simple(k), |SimpleText(k)|)
  {
    assert StartKind(SimpleText(k)[0]) == k;
  }

  lemma OutsideScans(t: Token, rest: seq<byte>)
    requires Canonical(false, t) && Separated(t, rest)
    ensures ScanOutside(Text(t) + rest) == Found(t, |Text(t)|)
  {
    hide ScanNumber, NumberOk;
    match t {
      case Simple(k) => SimpleScans(k, rest);
      case Space(_) =>
      case NumberToken(n) =>
        NumberScans(n, rest);
        NumberStarts(n);
    }
  }

  lemma NumberStarts(n: JsonNumber)
    ensures NumberText(n) != [] && StartKind(NumberText(n)[0]) == Number
  {
    DigitsAreDigits(n.integerPart);
  }

  /** A token is found at the head of the input if and only if it is canonical, the input begins with its
      text, and what follows does not continue it. */
  lemma ScanExactly(inString: bool, s: seq<byte>, t: Token, length: nat)
    requires s != []
    ensures Scan(inString, s) == Found(t, length) <==>
            Canonical(inString, t) && Text(t) <= s && length == |Text(t)| && Separated(t, s[|Text(t)|..])
  {
    hide ScanString, ScanOutside, Text, Canonical;
    if Scan(inString, s) == Found(t, length) {
      if inString {
        StringScanned(s);
        NumbersOutside(t);
      } else {
        OutsideScanned(s);
      }
    }
    if Canonical(inString, t) && Text(t) <= s && Separated(t, s[|Text(t)|..]) {
      assert s == Text(t) + s[|Text(t)|..];
      if inString {
        StringScans(t, s[|Text(t)|..]);
      } else {
        OutsideScans(t, s[|Text(t)|..]);
      }
    }
  }

  lemma NumbersOutside(t: Token)
    requires Canonical(true, t)
    ensures !t.NumberToken?
  {
  }

  // ---------------------------------------------------------------- scanning and the state machine

  /** What one call of the tokenizer does: a token and the bytes it consumed, or nothing consumed. */
  datatype Parsed = NoToken(stack: Stack) | Parsed(token: Token, length: nat, stack: Stack)

  function Judge(stack: Stack, capacity: nat, scanned: Scanned): (r: Parsed)
    requires Sound(stack, capacity)
    ensures Sound(r.stack, capacity)
  {
    match scanned
    case Nothing => NoToken(stack)
    case Found(token, length) =>
      StepSound(stack, capacity, token.Kind());
      var next := Step(stack, capacity, token.Kind());
      if next.ok then Parsed(token, length, next.stack) else NoToken(next.stack)
  }

  function Parse(stack: Stack, capacity: nat, s: seq<byte>): (r: Parsed)
    requires Sound(stack, capacity) && s != []
    ensures Sound(r.stack, capacity)
  {
    Judge(stack, capacity, Scan(Top(stack).IsString(), s))
  }

  /** Every accepted token prints as exactly the bytes it consumed. */
  lemma ParsePrintsBack(stack: Stack, capacity: nat, s: seq<byte>)
    requires Sound(stack, capacity) && s != [] && Parse(stack, capacity, s).Parsed?
    ensures var r := Parse(stack, capacity, s);
            && 0 < r.length <= |s| && Text(r.token) == s[..r.length] && Canonical(Top(stack).IsString(), r.token)
            && Step(stack, capacity, r.token.Kind()) == Outcome(true, r.stack)
  {
    hide Text, Canonical, Scan;
    var r := Parse(stack, capacity, s);
    ScanExactly(Top(stack).IsString(), s, r.token, r.length);
    TextNotEmpty(Top(stack).IsString(), r.token);
  }

  lemma TextNotEmpty(inString: bool, t: Token)
    requires Canonical(inString, t)
    ensures Text(t) != []
  {
  }

  // ---------------------------------------------------------------- whole inputs

  /** Tokens read one after the other until one is refused or the input ends. */
  datatype TokensRead = TokensRead(tokens: seq<Token>, length: nat, stack: Stack)

  function ReadTokens(stack: Stack, capacity: nat, s: seq<byte>): (r: TokensRead)
    requires Sound(stack, capacity)
    ensures r.length <= |s|
    decreases |s|
  {
    if s == [] then TokensRead([], 0, stack)
    else
      match Parse(stack, capacity, s)
      case NoToken(stack') => TokensRead([], 0, stack')
      case Parsed(t, length, stack') =>
        ParsePrintsBack(stack, capacity, s);
        var rest := ReadTokens(stack', capacity, s[length..]);
        TokensRead([t] + rest.tokens, length + rest.length, rest.stack)
  }

  function TextOf(ts: seq<Token>): seq<byte> {
    if ts == [] then [] else Text(ts[0]) + TextOf(ts[1..])
  }

  /** The state machine accepts the tokens one by one, each has its canonical form, and none continues another. */
  predicate TokensOk(stack: Stack, capacity: nat, ts: seq<Token>)
    requires Sound(stack, capacity)
    decreases |ts|
  {
    ts != [] ==>
      && Canonical(Top(stack).IsString(), ts[0]) && Separated(ts[0], TextOf(ts[1..]))
      && var next := Step(stack, capacity, ts[0].Kind());
         StepSound(stack, capacity, ts[0].Kind());
         next.ok && TokensOk(next.stack, capacity, ts[1..])
  }

  /** The tokens read print as exactly the bytes consumed. */
  lemma {:induction false} TokensPrintBack(stack: Stack, capacity: nat, s: seq<byte>)
    requires Sound(stack, capacity)
    ensures var r := ReadTokens(stack, capacity, s); TextOf(r.tokens) == s[..r.length]
    decreases |s|
  {
    hide Parse, Text, Canonical, Step;
    if s != [] && Parse(stack, capacity, s).Parsed? {
      var p := Parse(stack, capacity, s);
      ParsePrintsBack(stack, capacity, s);
      TokensPrintBack(p.stack, capacity, s[p.length..]);
      var rest := ReadTokens(p.stack, capacity, s[p.length..]);
      assert s[..p.length + rest.length] == s[..p.length] + s[p.length..][..rest.length];
      assert ([p.token] + rest.tokens)[1..] == rest.tokens;
    }
  }

  /** One step of the exact relation between an input and its tokens. */
  lemma ParseExactly(stack: Stack, capacity: nat, s: seq<byte>, t: Token, length: nat)
    requires Sound(stack, capacity) && s != []
    ensures (exists next :: Parse(stack, capacity, s) == Parsed(t, length, next)) <==>
            && Canonical(Top(stack).IsString(), t) && Text(t) <= s && length == |Text(t)|
            && Separated(t, s[|Text(t)|..])
            && Step(stack, capacity, t.Kind()).ok
  {
    hide Scan, Text, Canonical, Step;
    ScanExactly(Top(stack).IsString(), s, t, length);
    if Scan(Top(stack).IsString(), s) == Found(t, length) && Step(stack, capacity, t.Kind()).ok {
      assert Parse(stack, capacity, s) == Parsed(t, length, Step(stack, capacity, t.Kind()).stack);
    }
  }

  lemma {:induction false} TextIsRead(stack: Stack, capacity: nat, s: seq<byte>, ts: seq<Token>)
    requires Sound(stack, capacity) && TokensOk(stack, capacity, ts) && TextOf(ts) == s
    ensures ReadTokens(stack, capacity, s).tokens == ts && ReadTokens(stack, capacity, s).length == |s|
    decreases |ts|
  {
    hide Parse, Text, Canonical, Step, Separated;
    if ts != [] {
      TextNotEmpty(Top(stack).IsString(), ts[0]);
      assert s[|Text(ts[0])|..] == TextOf(ts[1..]);
      StepSound(stack, capacity, ts[0].Kind());
      ParseExactly(stack, capacity, s, ts[0], |Text(ts[0])|);
      ParsePrintsBack(stack, capacity, s);
      TextIsRead(Step(stack, capacity, ts[0].Kind()).stack, capacity, s[|Text(ts[0])|..], ts[1..]);
    }
  }

  lemma {:induction false} ReadIsText(stack: Stack, capacity: nat, s: seq<byte>)
    requires Sound(stack, capacity) && ReadTokens(stack, capacity, s).length == |s|
    ensures var ts := ReadTokens(stack, capacity, s).tokens; TokensOk(stack, capacity, ts) && TextOf(ts) == s
    decreases |s|
  {
    hide Parse, Text, Canonical, Step, Separated;
    TokensPrintBack(stack, capacity, s);
    if s != [] {
      var p := Parse(stack, capacity, s);
      ParsePrintsBack(stack, capacity, s);
      ParseExactly(stack, capacity, s, p.token, p.length);
      var rest := ReadTokens(p.stack, capacity, s[p.length..]);
      ReadIsText(p.stack, capacity, s[p.length..]);
      assert ([p.token] + rest.tokens)[1..] == rest.tokens;
    }
  }

  /** A whole input is read as the given tokens if and only if it is their text, they are canonical and
      separated, and the state machine accepts them. */
  lemma TokenizeExactly(stack: Stack, capacity: nat, s: seq<byte>, ts: seq<Token>)
    requires Sound(stack, capacity)
    ensures var r := ReadTokens(stack, capacity, s);
            r.length == |s| && r.tokens == ts <==> TokensOk(stack, capacity, ts) && TextOf(ts) == s
  {
    hide ReadTokens, TokensOk, TextOf;
    if ReadTokens(stack, capacity, s).length == |s| {
      ReadIsText(stack, capacity, s);
    }
    if TokensOk(stack, capacity, ts) && TextOf(ts) == s {
      TextIsRead(stack, capacity, s, ts);
    }
  }

  function KindsOf(ts: seq<Token>): seq<Kind> {
    seq(|ts|, i requires 0 <= i < |ts| => ts[i].Kind())
  }

  /** The state machine has run over exactly the tokens read, when the whole input was read. */
  lemma {:induction false} TokensRun(stack: Stack, capacity: nat, s: seq<byte>)
    requires Sound(stack, capacity) && ReadTokens(stack, capacity, s).length == |s|
    ensures var r := ReadTokens(stack, capacity, s); Run(stack, capacity, KindsOf(r.tokens)) == Reached(r.stack)
    decreases |s|
  {
    hide Parse, Text, Canonical, Step;
    if s != [] {
      var p := Parse(stack, capacity, s);
      ParsePrintsBack(stack, capacity, s);
      TokensRun(p.stack, capacity, s[p.length..]);
      var r, rest := ReadTokens(stack, capacity, s), ReadTokens(p.stack, capacity, s[p.length..]);
      assert KindsOf(r.tokens)[0] == p.token.Kind() && KindsOf(r.tokens)[1..] == KindsOf(rest.tokens);
    }
  }

  // ---------------------------------------------------------------- the object

  class Tokenizer {
    const jsm: JsonStateMachine
    // the reader: its bytes and how many are consumed
    const input: seq<byte>
    var position: nat

    ghost function Repr(): (r: set<object>)
      ensures {this, jsm, jsm.cells} <= r
    {
      {this, jsm, jsm.cells}
    }

    ghost predicate Valid()
      reads Repr()
    {
      jsm.Valid() && position <= |input|
    }

    constructor (input: seq<byte>)
      ensures Valid() && fresh(Repr()) && this.input == input && position == 0 && jsm.View() == INITIAL_STACK
      ensures jsm.cells.Length == MAX_STACK
    {
      jsm := new JsonStateMachine(MAX_STACK);
      this.input := input;
      position := 0;
    }

    /** Read digits; on failure the position is meaningless and both results are zero. */
    method ReadUint() returns (zeroes: nat, value: nat)
      requires Valid()
      modifies this`position
      ensures Valid() && position >= old(position)
      ensures var r := ReadDecimal(input, old(position), 0, 0);
              zeroes == r.zeroes && value == r.value && (!r.IsInvalid() ==> position == r.end)
    {
      zeroes, value := 0, 0;
      while position < |input|
        invariant old(position) <= position <= |input| && Valid()
        invariant ReadDecimal(input, position, zeroes, value) == ReadDecimal(input, old(position), 0, 0)
      {
        var next := input[position];
        if next < 0x30 || next > 0x39 {
          break;
        }
        if next == 0x30 && value == 0 {
          zeroes := zeroes + 1;
          if zeroes >= MAX_LEADING_ZEROES {
            return 0, 0;
          }
          position := position + 1;
        } else {
          var digit := next - 0x30;
          if WillOverflow(value, digit) {
            return 0, 0;
          }
          value := 10 * value + digit;
          position := position + 1;
        }
      }
    }

    /** The effect of one parse from `start`: a token and its bytes consumed, or no byte consumed. */
    ghost predicate Did(r: Parsed, start: nat, t: Option<Token>)
      reads Repr()
    {
      && jsm.View() == r.stack
      && if r.Parsed? then t == Some(r.token) && position == start + r.length else t == None && position == start
    }

    /** Offer a token, whose bytes are already consumed, to the state machine; take them back if it refuses. */
    method Yield(token: Token, start: nat) returns (t: Option<Token>)
      requires Valid() && start <= position
      modifies this`position, jsm, jsm.cells
      ensures Valid() && Did(Judge(old(jsm.View()), jsm.cells.Length, Found(token, old(position) - start)), start, t)
    {
      var ok := jsm.ProcessToken(token.Kind());
      if ok {
        t := Some(token);
      } else {
        position := start;
        t := None;
      }
    }

    method ParseEscape(start: nat) returns (t: Option<Token>)
      requires Valid() && position == start < |input| && input[start] == 0x5C
      modifies this`position, jsm, jsm.cells
      ensures Valid() && Did(Judge(old(jsm.View()), jsm.cells.Length, ScanString(input[start..])), start, t)
    {
      hide Step, Merge, Merging, Or, IsHex, Sound, ScanString;
      ghost var s := input[start..];
      EscapeScanned(s);
      t := None;
      if |input| - position < 2 {
        return;
      }
      position := start + 2;
      var next := input[start + 1];
      var i := 0;
      while i < |ESCAPE_CHARACTERS|
        invariant 0 <= i <= |ESCAPE_CHARACTERS| && next !in ESCAPE_CHARACTERS[..i]
      {
        if next == ESCAPE_CHARACTERS[i] {
          t := Yield(Escape(next), start);
          return;
        }
        i := i + 1;
      }
      assert next !in ESCAPE_CHARACTERS;
      if next == 0x75 && |input| - position >= 4 {
        ghost var hex := s[2..6];
        var value: nat, scale: nat, k := 0, 1, 0;
        MergeStart(hex);
        while k < 4
          invariant Valid() && jsm.View() == old(jsm.View()) && 0 <= k <= 4 && position == start + 2 + k
          invariant forall j | 2 <= j < 2 + k :: IsHex(s[j])
          invariant Merging(hex, k, value, scale)
        {
          var b := input[position];
          position := position + 1;
          assert b == s[2 + k] == hex[k];
          if !IsHex(b) {
            assert !FourHex(s);
            position := start;
            return;
          }
          MergeStep(hex, k, value, scale);
          value := Or(value, b * scale);
          scale := 256 * scale;
          k := k + 1;
        }
        MergeDone(hex, value, scale);
        assert FourHex(s);
        t := Yield(EscapedCharacter(value, 4), start);
        return;
      }
      position := start;
    }

    method ParseCharacter(start: nat) returns (t: Option<Token>)
      requires Valid() && position == start < |input| && input[start] != 0x22 && input[start] != 0x5C
      modifies this`position, jsm, jsm.cells
      ensures Valid() && Did(Judge(old(jsm.View()), jsm.cells.Length, ScanString(input[start..])), start, t)
    {
      hide Step, Merge, Merging, Or, And, IsContinuation, Sound;
      ghost var s := input[start..];
      t := None;
      var first := input[start];
      var length := Utf8Length(first);
      if length == 0 || |input| - position < length {
        return;
      }
      if length == 1 && first <= 0x1F {
        return;
      }
      ghost var bytes := s[..length];
      var value: nat, scale: nat, i := first, 256, 1;
      position := start + 1;
      MergeFirst(bytes);
      while i < length
        invariant Valid() && jsm.View() == old(jsm.View()) && 1 <= i <= length && position == start + i
        invariant forall j | 1 <= j < i :: IsContinuation(s[j])
        invariant Merging(bytes, i, value, scale)
      {
        var b := input[position];
        position := position + 1;
        assert b == s[i] == bytes[i];
        ContinuationIsMasked(b);
        if And(b, 0xC0) != 0x80 {
          NotContinuation(s, i);
          position := start;
          return;
        }
        MergeStep(bytes, i, value, scale);
        value := Or(value, b * scale);
        scale := 256 * scale;
        i := i + 1;
      }
      MergeDone(bytes, value, scale);
      t := Yield(Character(value, length), start);
    }

    method ParseStringToken() returns (t: Option<Token>)
      requires Valid() && position < |input|
      modifies this`position, jsm, jsm.cells
      ensures Valid() && Did(Judge(old(jsm.View()), jsm.cells.Length, ScanString(input[old(position)..])),
              old(position), t)
    {
      hide Step;
      var start := position;
      var first := input[position];
      if first == 0x22 {
        position := position + 1;
        t := Yield(Simple(StringDelimiter), start);
      } else if first == 0x5C {
        t := ParseEscape(start);
      } else {
        t := ParseCharacter(start);
      }
    }

    /** A token of fixed text, whose first byte is known to be right. */
    method ParseFixedToken(kind: Kind, expected: seq<byte>) returns (t: Option<Token>)
      requires Valid() && position < |input| && expected == SimpleText(kind) && expected != []
               && input[position] == expected[0]
      modifies this`position, jsm, jsm.cells
      ensures Valid() && Did(Judge(old(jsm.View()), jsm.cells.Length, ScanFixed(input[old(position)..], kind)),
              old(position), t)
    {
      hide Step, SimpleText;
      var start := position;
      ghost var s := input[start..];
      t := None;
      if |input| - position < |expected| {
        assert !(expected <= s);
        return;
      }
      position := position + 1;
      var i := 1;
      while i < |expected|
        invariant Valid() && jsm.View() == old(jsm.View()) && 1 <= i <= |expected| && position == start + i
        invariant s[..i] == expected[..i]
      {
        var b := input[position];
        position := position + 1;
        if b != expected[i] {
          assert s[i] != expected[i] && !(expected <= s);
          position := start;
          return;
        }
        i := i + 1;
      }
      t := Yield(Simple(kind), start);
    }

    /** The fraction, if there is one, of the number that began at `start`. */
    method ParseFraction(ghost start: nat) returns (ok: bool, present: bool, zeroes: nat, value: nat)
      requires Valid() && start <= position
      modifies this`position
      ensures Valid() && start <= position && (ok ==> zeroes < MAX_LEADING_ZEROES)
      ensures var i, p := old(position) - start, ScanFraction(input[start..], old(position) - start);
              && ok == !p.BadPart? && (ok ==> present == p.GoodPart?)
              && (p.GoodPart? ==> zeroes == p.read.zeroes && value == p.read.value && position - start == p.read.end)
              && (p.NoPart? ==> zeroes == value == 0 && position - start == i)
    {
      hide ReadDecimal;
      ReadDecimalBounds(input);
      ok, present, zeroes, value := true, false, 0, 0;
      if |input| - position >= 1 && input[position] == 0x2E {
        if |input| - position < 2 {
          ok := false;
          return;
        }
        present := true;
        position := position + 1;
        DecimalShift(input, start, position - start, 0, 0);
        zeroes, value := ReadUint();
        ok := !(value == 0 && zeroes == 0);
      }
    }

    /** The exponent, if there is one. */
    method ParseExponent(ghost start: nat)
      returns (ok: bool, present: bool, upper: bool, minus: bool, plus: bool, zeroes: nat, value: nat)
      requires Valid() && start <= position
      modifies this`position
      ensures Valid() && start <= position && (ok ==> zeroes < MAX_LEADING_ZEROES)
      ensures var s, i, p := input[start..], old(position) - start, ScanExponent(input[start..], old(position) - start);
              && ok == !p.BadPart? && (ok ==> present == p.GoodPart?)
              && (p.GoodPart? ==>
                    && zeroes == p.read.zeroes && value == p.read.value && position - start == p.read.end && i + 1 < |s|
                    && upper == (s[i] == 0x45) && minus == (s[i + 1] == 0x2D) && plus == (s[i + 1] == 0x2B))
              && (p.NoPart? ==> zeroes == value == 0 && position - start == i && !upper && !minus && !plus)
    {
      hide ReadDecimal, JsonStateMachine.Valid, Sound;
      ReadDecimalBounds(input);
      ok, present, upper, minus, plus, zeroes, value := true, false, false, false, false, 0, 0;
      if |input| - position >= 1 {
        var next := input[position];
        if next == 0x65 || next == 0x45 {
          if |input| - position < 2 {
            ok := false;
            return;
          }
          present := true;
          upper := next == 0x45;
          position := position + 1;
          next := input[position];
          if next == 0x2D || next == 0x2B {
            if |input| - position < 2 {
              ok := false;
              return;
            }
            minus, plus := next == 0x2D, next == 0x2B;
            position := position + 1;
          }
          DecimalShift(input, start, position - start, 0, 0);
          zeroes, value := ReadUint();
          ok := !(value == 0 && zeroes == 0) && value <= 0xFFFF;
        }
      }
    }

    /** A number at the position, if there is one; only then is the new position meaningful. */
    method ReadNumber() returns (found: Option<JsonNumber>)
      requires Valid() && position < |input|
      modifies this`position
      ensures Valid()
      ensures var scanned := ScanNumber(input[old(position)..]);
              if scanned.Found? then
                && found.Some? && scanned.token == NumberToken(found.value)
                && position == old(position) + scanned.length
              else found.None?
    {
      hide ReadDecimal, ScanFraction, ScanExponent, ScanNumber, JsonStateMachine.Valid, Sound;
      ghost var start, s := position, input[position..];
      NumberFound(s);
      found := None;
      var negative := input[position] == 0x2D;
      assert negative == (s[0] == 0x2D);
      if !negative || |input| - position >= 2 {
        if negative {
          position := position + 1;
        }
        DecimalShift(input, start, position - start, 0, 0);
        var zeroes, value := ReadUint();
        if !(value == 0 && zeroes == 0) && zeroes <= 1 && !(zeroes > 0 && value > 0) {
          var okFraction, fraction, fractionZeroes, fractionPart := ParseFraction(start);
          if okFraction {
            var okExponent, exponent, upper, minus, plus, exponentZeroes, exponentPart := ParseExponent(start);
            if okExponent {
              ghost var a, b, c, i, f, e := NumberParts(s);
              var flags := NumberFlags(zeroes > 0, negative, fraction, exponent, upper, minus, plus);
              found := Some(JsonNumber(flags, value, fractionZeroes, fractionPart, exponentZeroes, exponentPart));
            }
          }
        }
      }
    }

    method ParseNumber() returns (t: Option<Token>)
      requires Valid() && position < |input|
      modifies this`position, jsm, jsm.cells
      ensures Valid() && Did(Judge(old(jsm.View()), jsm.cells.Length, ScanNumber(input[old(position)..])),
              old(position), t)
    {
      hide Step, ScanNumber;
      var start := position;
      var number := ReadNumber();
      if number.Some? {
        ghost var s := input[start..];
        NumberScanned(s);
        t := Yield(NumberToken(number.value), start);
      } else {
        position := start;
        t := None;
      }
    }

    method ParseOutside() returns (t: Option<Token>)
      requires Valid() && position < |input|
      modifies this`position, jsm, jsm.cells
      ensures Valid() && Did(Judge(old(jsm.View()), jsm.cells.Length, ScanOutside(input[old(position)..])),
              old(position), t)
    {
      hide Step, ScanNumber, ScanFixed;
      var start := position;
      var b := input[position];
      var kind := StartKind(b);
      if kind.Invalid? {
        t := None;
      } else if kind in {True, False, Null, Bom} {
        t := ParseFixedToken(kind, SimpleText(kind));
      } else if kind.Number? {
        t := ParseNumber();
      } else {
        SingleByte(input[start..]);
        position := position + 1;
        t := Yield(if kind.Whitespace? then Space(b) else Simple(kind), start);
      }
    }

    /** Read one token. The token, the bytes consumed and the state machine's stack are those of the
        function `Parse`; without a token no byte is consumed. */
    method ParseNext() returns (t: Option<Token>)
      requires Valid() && position < |input|
      modifies this`position, jsm, jsm.cells
      ensures Valid() && Did(Parse(old(jsm.View()), jsm.cells.Length, input[old(position)..]), old(position), t)
    {
      hide ScanString, ScanOutside, Judge;
      var state := jsm.CurrentState();
      if state.IsString() {
        t := ParseStringToken();
      } else {
        t := ParseOutside();
      }
    }

    method Reset()
      requires Valid()
      modifies jsm, jsm.cells
      ensures Valid() && jsm.View() == INITIAL_STACK
    {
      jsm.Reset();
    }

    /** A whole document is read: only the bottom of the stack is left. */
    method IsDone() returns (done: bool)
      requires Valid()
      ensures done <==> jsm.View() == [Root]
    {
      var state := jsm.CurrentState();
      done := state.Root?;
    }
  }

  lemma {:induction false} DecimalShift(s: seq<byte>, k: nat, i: nat, zeroes: nat, value: nat)
    requires k + i <= |s|
    ensures var r, t := ReadDecimal(s[k..], i, zeroes, value), ReadDecimal(s, k + i, zeroes, value);
            t == UintRead(r.zeroes, r.value, k + r.end)
    decreases |s| - i
  {
    if k + i < |s| && IsDigit(s[k + i]) {
      if s[k + i] == 0x30 && value == 0 {
        if zeroes + 1 < MAX_LEADING_ZEROES {
          DecimalShift(s, k, i + 1, zeroes + 1, 0);
        }
      } else if !WillOverflow(value, s[k + i] - 0x30) {
        DecimalShift(s, k, i + 1, zeroes, 10 * value + (s[k + i] - 0x30));
      }
    }
  }

  lemma SingleByte(s: seq<byte>)
    requires s != [] && StartKind(s[0]) !in {Invalid, True, False, Null, Bom, Number}
    ensures var k := StartKind(s[0]); ScanOutside(s) == Found(if k.Whitespace? then Space(s[0]) else Simple(k), 1)
  {
  }

  predicate FourHex(s: seq<byte>) {
    |s| >= 6 && forall i | 2 <= i < 6 :: IsHex(s[i])
  }

  lemma EscapeScanned(s: seq<byte>)
    requires s != [] && s[0] == 0x5C
    ensures ScanString(s) ==
            if |s| < 2 then Nothing
            else if s[1] in ESCAPE_CHARACTERS then Found(Escape(s[1]), 2)
            else if s[1] == 0x75 && FourHex(s) then Found(EscapedCharacter(Merge(s[2..6]), 4), 6)
            else Nothing
  {
    hide Merge, IsHex;
  }

  lemma NotContinuation(s: seq<byte>, k: nat)
    requires 1 <= k < |s| && s[0] != 0x22 && s[0] != 0x5C && k < Utf8Length(s[0]) && !IsContinuation(s[k])
    ensures ScanString(s) == Nothing
  {
  }

  /** The bytes before `k` are merged into `value`, and `scale` is where the next one goes. */
  ghost predicate Merging(bytes: seq<byte>, k: nat, value: nat, scale: nat) {
    k <= |bytes| && value + scale * Merge(bytes[k..]) == Merge(bytes) && value < scale == Pow2(8 * k)
  }

  lemma MergeStart(bytes: seq<byte>)
    ensures Merging(bytes, 0, 0, 1)
  {
    assert bytes[0..] == bytes;
  }

  lemma MergeFirst(bytes: seq<byte>)
    requires bytes != []
    ensures Merging(bytes, 1, bytes[0], 256)
  {
    MergeStart(bytes);
    MergeStep(bytes, 0, 0, 1);
    OrZero(bytes[0]);
  }

  lemma EightMore(n: nat)
    ensures Pow2(n + 8) == 256 * Pow2(n)
  {
    assert Pow2(n + 2) == 4 * Pow2(n) && Pow2(n + 4) == 4 * Pow2(n + 2);
    assert Pow2(n + 6) == 4 * Pow2(n + 4);
  }

  /** A byte shifted by eight bits for each one before it lies above all of those: joining it is adding it. */
  lemma ByteAbove(value: nat, scale: nat, b: byte, k: nat)
    requires value < scale == Pow2(8 * k)
    ensures Or(value, b * scale) == value + scale * b < 256 * scale == Pow2(8 * (k + 1))
  {
    hide Or, Pow2;
    OrAbove(value, b, 8 * k);
    MulMonotone(b, 255, scale);
    EightMore(8 * k);
  }

  /** Joining one more byte above those already merged. */
  lemma MergeStep(bytes: seq<byte>, k: nat, value: nat, scale: nat)
    requires k < |bytes| && Merging(bytes, k, value, scale)
    ensures Merging(bytes, k + 1, Or(value, bytes[k] * scale), 256 * scale)
  {
    hide Or;
    assert bytes[k..][1..] == bytes[k + 1..];
    Distribute(scale, bytes[k], Merge(bytes[k + 1..]));
    ByteAbove(value, scale, bytes[k], k);
  }

  lemma Distribute(scale: nat, low: nat, rest: nat)
    ensures scale * (low + 256 * rest) == scale * low + (256 * scale) * rest
  {
  }

  lemma MergeDone(bytes: seq<byte>, value: nat, scale: nat)
    requires Merging(bytes, |bytes|, value, scale)
    ensures value == Merge(bytes)
  {
    assert Merge(bytes[|bytes|..]) == 0;
  }

  lemma SixPlaces(b: byte)
    ensures Shifted(b, 6) == b / 64
  {
    var b2, b4 := Rest(Rest(b)), Rest(Rest(Rest(Rest(b))));
    assert Shifted(b, 6) == Shifted(b2, 4) == Shifted(b4, 2) == Shifted(Rest(b4), 1) == Rest(Rest(b4));
    assert b2 == b / 4 && b4 == b2 / 4;
  }

  /** The two highest bits of a byte are one and zero exactly in continuation bytes. */
  lemma ContinuationIsMasked(b: byte)
    ensures And(b, 0xC0) == 0x80 <==> IsContinuation(b)
  {
    hide And;
    assert Pow2(6) == 64 && Pow2(2) == 4;
    AndAbove(b, 3, 6);
    AndMask(Shifted(b, 6), 2);
    SixPlaces(b);
  }
}
