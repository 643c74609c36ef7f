/** Input that arrives in pieces: as long as the reader has a safe amount of data (reader.c), what follows cannot matter
    to the next token. */
module JsonPieces {
  import Arithmetic
  import opened Common
  import opened JsonStates
  import JsonTokens
  import opened JsonTokenizer

  const SAFE_SIZE: nat := 512

  function Pow10(n: nat): (p: nat)
    ensures p > 0
  {
    if n == 0 then 1 else 10 * Pow10(n - 1)
  }

  lemma NineteenDigits(digit: nat)
    requires digit > 0
    ensures digit * Pow10(19) >= TENTH_OF_MAX_UINT64
  {
    assert Pow10(8) == 1_0000_0000;
    assert Pow10(16) == 1_0000_0000_0000_0000;
    Arithmetic.MulMonotone(1, digit, Pow10(19));
  }

  lemma NoDigitLeft(value: nat)
    requires value * Pow10(0) >= TENTH_OF_MAX_UINT64
    ensures value >= TENTH_OF_MAX_UINT64
  {
  }

  lemma OneDigitMore(value: nat, digit: nat, left: nat)
    requires left > 0 && value * Pow10(left) >= TENTH_OF_MAX_UINT64
    ensures (10 * value + digit) * Pow10(left - 1) >= TENTH_OF_MAX_UINT64
  {
    var p := Pow10(left - 1);
    assert (10 * value + digit) * p == value * (10 * p) + digit * p;
  }

  /** Digits end within 79 zeros and 20 more digits, or the reading is given up there: `left` bounds what can still be
      read. */
  lemma {:induction false} DecimalStable(s: seq<byte>, t: seq<byte>, i: nat, zeroes: nat, value: nat, left: nat)
    requires i + left < |s| && zeroes < MAX_LEADING_ZEROES
    requires if value > 0 then value * Pow10(left) >= TENTH_OF_MAX_UINT64 else left >= MAX_LEADING_ZEROES - zeroes + 20
    ensures ReadDecimal(s + t, i, zeroes, value) == ReadDecimal(s, i, zeroes, value)
    ensures ReadDecimal(s, i, zeroes, value).end <= i + left
    decreases left
  {
    hide Pow10;
    if IsDigit(s[i]) {
      var digit := s[i] - 0x30;
      if digit == 0 && value == 0 {
        if zeroes + 1 < MAX_LEADING_ZEROES {
          DecimalStable(s, t, i + 1, zeroes + 1, 0, left - 1);
        }
      } else if !WillOverflow(value, digit) {
        if value == 0 {
          NineteenDigits(digit);
          DecimalStable(s, t, i + 1, zeroes, digit, 19);
        } else {
          if left == 0 {
            NoDigitLeft(value);
          }
          OneDigitMore(value, digit, left);
          DecimalStable(s, t, i + 1, zeroes, 10 * value + digit, left - 1);
        }
      }
    }
  }

  const DIGITS: nat := MAX_LEADING_ZEROES + 20

  lemma FractionStable(s: seq<byte>, t: seq<byte>, i: nat)
    requires i + 1 + DIGITS < |s|
    ensures ScanFraction(s + t, i) == ScanFraction(s, i)
    ensures var p := ScanFraction(s, i); p.GoodPart? ==> p.read.end <= i + 1 + DIGITS
  {
    hide ReadDecimal;
    DecimalStable(s, t, i + 1, 0, 0, DIGITS);
  }

  lemma ExponentStable(s: seq<byte>, t: seq<byte>, i: nat)
    requires i + 2 + DIGITS < |s|
    ensures ScanExponent(s + t, i) == ScanExponent(s, i)
  {
    hide ReadDecimal;
    DecimalStable(s, t, i + 1, 0, 0, DIGITS);
    DecimalStable(s, t, i + 2, 0, 0, DIGITS);
  }

  lemma NumberStable(s: seq<byte>, t: seq<byte>)
    requires |s| > 3 * DIGITS + 4
    ensures ScanNumber(s + t) == ScanNumber(s)
  {
    hide ReadDecimal, ScanFraction, ScanExponent;
    DecimalStable(s, t, if s[0] == 0x2D then 1 else 0, 0, 0, DIGITS);
    var integer := ReadDecimal(s, if s[0] == 0x2D then 1 else 0, 0, 0);
    FractionStable(s, t, integer.end);
    var fraction := ScanFraction(s, integer.end);
    ExponentStable(s, t, if fraction.GoodPart? then fraction.read.end else integer.end);
  }

  lemma StringStable(s: seq<byte>, t: seq<byte>)
    requires |s| >= 6
    ensures ScanString(s + t) == ScanString(s)
  {
    hide JsonTokens.Merge;
    assert (s + t)[2..6] == s[2..6];
    var n := Utf8Length(s[0]);
    assert (s + t)[..n] == s[..n];
    assert forall i | 1 <= i < 6 :: (s + t)[i] == s[i];
  }

  lemma FixedStable(s: seq<byte>, t: seq<byte>, kind: Kind)
    requires |s| >= 5
    ensures ScanFixed(s + t, kind) == ScanFixed(s, kind)
  {
    assert |JsonTokens.SimpleText(kind)| <= 5;
    assert (s + t)[..|JsonTokens.SimpleText(kind)|] == s[..|JsonTokens.SimpleText(kind)|];
  }

  /** With a safe amount of data, the token at the head of the input does not depend on what comes behind it. */
  lemma ScanStable(inString: bool, s: seq<byte>, t: seq<byte>)
    requires |s| >= SAFE_SIZE
    ensures Scan(inString, s + t) == Scan(inString, s)
  {
    hide ScanNumber, ScanString, ScanFixed;
    NumberStable(s, t);
    StringStable(s, t);
    FixedStable(s, t, StartKind(s[0]));
  }

  // ---------------------------------------------------------------- tokens read while it is safe

  /** The tokens read, the bytes they took, the stack, and whether a token was refused. */
  datatype Progress = Progress(tokens: seq<JsonTokens.Token>, length: nat, stack: Stack, refused: bool)

  function ReadSafely(stack: Stack, capacity: nat, s: seq<byte>): (r: Progress)
    requires Sound(stack, capacity)
    ensures r.length <= |s| && Sound(r.stack, capacity)
    decreases |s|
  {
    if |s| < SAFE_SIZE then Progress([], 0, stack, false)
    else
      match Parse(stack, capacity, s)
      case NoToken(stack') => Progress([], 0, stack', true)
      case Parsed(t, length, stack') =>
        ParsePrintsBack(stack, capacity, s);
        var rest := ReadSafely(stack', capacity, s[length..]);
        Progress([t] + rest.tokens, length + rest.length, rest.stack, rest.refused)
  }

  function After(r: Progress, rest: TokensRead): TokensRead {
    if r.refused then TokensRead(r.tokens, r.length, r.stack)
    else TokensRead(r.tokens + rest.tokens, r.length + rest.length, rest.stack)
  }

  lemma OneTokenMore(stack: Stack, capacity: nat, s: seq<byte>)
    requires Sound(stack, capacity) && s != []
    ensures var p, r := Parse(stack, capacity, s), ReadTokens(stack, capacity, s);
            if p.NoToken? then r == TokensRead([], 0, p.stack)
            else
              && p.length <= |s|
              && var rest := ReadTokens(p.stack, capacity, s[p.length..]);
                 r == TokensRead([p.token] + rest.tokens, p.length + rest.length, rest.stack)
  {
    hide Parse;
    if Parse(stack, capacity, s).Parsed? {
      ParsePrintsBack(stack, capacity, s);
    }
  }

  lemma OneTokenSafely(stack: Stack, capacity: nat, s: seq<byte>)
    requires Sound(stack, capacity) && |s| >= SAFE_SIZE
    ensures var p, r := Parse(stack, capacity, s), ReadSafely(stack, capacity, s);
            if p.NoToken? then r == Progress([], 0, p.stack, true)
            else
              && 0 < p.length <= |s|
              && var rest := ReadSafely(p.stack, capacity, s[p.length..]);
                 r == Progress([p.token] + rest.tokens, p.length + rest.length, rest.stack, rest.refused)
  {
    hide Parse;
    if Parse(stack, capacity, s).Parsed? {
      ParsePrintsBack(stack, capacity, s);
    }
  }

  lemma NotYetSafe(stack: Stack, capacity: nat, s: seq<byte>)
    requires Sound(stack, capacity) && |s| < SAFE_SIZE
    ensures ReadSafely(stack, capacity, s) == Progress([], 0, stack, false)
  {
  }

  lemma SameToken(stack: Stack, capacity: nat, s: seq<byte>, t: seq<byte>)
    requires Sound(stack, capacity) && |s| >= SAFE_SIZE
    ensures Parse(stack, capacity, s + t) == Parse(stack, capacity, s)
  {
    hide Scan, Judge;
    ScanStable(Top(stack).IsString(), s, t);
  }

  /** Reading goes on with what is left, as if everything had been there from the start. */
  lemma {:induction false} SafelyThenRest(stack: Stack, capacity: nat, s: seq<byte>, t: seq<byte>)
    requires Sound(stack, capacity)
    ensures var r := ReadSafely(stack, capacity, s);
            ReadTokens(stack, capacity, s + t) == After(r, ReadTokens(r.stack, capacity, s[r.length..] + t))
    decreases |s|
  {
    hide ReadTokens, ReadSafely, Parse;
    if |s| < SAFE_SIZE {
      NotYetSafe(stack, capacity, s);
      assert s[0..] == s;
    } else {
      SameToken(stack, capacity, s, t);
      OneTokenSafely(stack, capacity, s);
      OneTokenMore(stack, capacity, s + t);
      var p := Parse(stack, capacity, s);
      if p.Parsed? {
        var left := s[p.length..];
        var rest := ReadSafely(p.stack, capacity, left);
        SafelyThenRest(p.stack, capacity, left, t);
        assert (s + t)[p.length..] == left + t;
        assert left[rest.length..] == s[p.length + rest.length..];
      }
    }
  }

  // ---------------------------------------------------------------- pieces

  function Joined(pieces: seq<seq<byte>>): seq<byte> {
    if pieces == [] then [] else pieces[0] + Joined(pieces[1..])
  }

  /** After each piece, tokens are read as long as that is safe; after the last one, all there are. */
  function ReadPieces(stack: Stack, capacity: nat, pending: seq<byte>, pieces: seq<seq<byte>>): (r: TokensRead)
    requires Sound(stack, capacity)
    decreases |pieces|
  {
    if pieces == [] then ReadTokens(stack, capacity, pending)
    else
      var s := pending + pieces[0];
      var r := ReadSafely(stack, capacity, s);
      if r.refused then TokensRead(r.tokens, r.length, r.stack)
      else After(r, ReadPieces(r.stack, capacity, s[r.length..], pieces[1..]))
  }

  /** However the input is cut into pieces, tokens, bytes consumed and stack are those of the whole input. */
  lemma {:induction false} PiecesExactly(stack: Stack, capacity: nat, pending: seq<byte>, pieces: seq<seq<byte>>)
    requires Sound(stack, capacity)
    ensures ReadPieces(stack, capacity, pending, pieces) == ReadTokens(stack, capacity, pending + Joined(pieces))
    decreases |pieces|
  {
    hide ReadTokens, ReadSafely;
    if pieces == [] {
      assert pending + [] == pending;
    } else {
      var s, rest := pending + pieces[0], Joined(pieces[1..]);
      var r := ReadSafely(stack, capacity, s);
      assert pending + Joined(pieces) == s + rest;
      SafelyThenRest(stack, capacity, s, rest);
      PiecesExactly(r.stack, capacity, s[r.length..], pieces[1..]);
    }
  }
}
