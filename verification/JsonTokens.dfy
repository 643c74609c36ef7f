/** JSON tokens (json_base.c) and their text (json_detokenizer.c). */
module JsonTokens {
  import Arithmetic
  import opened Bitwise
  import opened ByteSinks
  import opened Common
  import opened JsonStates

  const TRUE_BYTES: seq<byte> := [0x74, 0x72, 0x75, 0x65]
  const FALSE_BYTES: seq<byte> := [0x66, 0x61, 0x6C, 0x73, 0x65]
  const NULL_BYTES: seq<byte> := [0x6E, 0x75, 0x6C, 0x6C]
  const BOM_BYTES: seq<byte> := [0xEF, 0xBB, 0xBF]

  // ---------------------------------------------------------------- numbers

  /** The bits of json_number_flags: the integer part is zero, there is a minus sign, a fraction, an
      exponent, and the exponent's upper case letter, minus sign and plus sign. */
  datatype NumberFlags = NumberFlags(zero: bool, negative: bool, fraction: bool, exponent: bool, upper: bool,
    minus: bool, plus: bool) {
    function Byte(): (b: byte)
      ensures b < 128
    {
      Bit(zero) + 2 * (Bit(negative)
        + 2 * (Bit(fraction) + 2 * (Bit(exponent) + 2 * (Bit(upper) + 2 * (Bit(minus) + 2 * Bit(plus))))))
    }
  }

  function Bit(b: bool): bit {
    if b then 1 else 0
  }

  /** The flags of a byte, lowest bit first; the highest bit has no meaning. */
  function FlagsOf(b: byte): NumberFlags {
    var b1 := Rest(b);
    var b2 := Rest(b1);
    var b3 := Rest(b2);
    var b4 := Rest(b3);
    var b5 := Rest(b4);
    NumberFlags(Lowest(b) == 1, Lowest(b1) == 1, Lowest(b2) == 1, Lowest(b3) == 1, Lowest(b4) == 1, Lowest(b5) == 1,
                Lowest(Rest(b5)) == 1)
  }

  lemma LowestBit(b: bool, rest: nat)
    ensures (Lowest(Bit(b) + 2 * rest) == 1) == b && Rest(Bit(b) + 2 * rest) == rest
  {
    Halves(Bit(b), rest);
  }

  lemma FlagsBack(f: NumberFlags)
    ensures FlagsOf(f.Byte()) == f
  {
    hide Lowest, Rest, Bit;
    LowestBit(f.plus, 0);
    var q6: nat := Bit(f.plus);
    var q5: nat := Bit(f.minus) + 2 * q6;
    var q4: nat := Bit(f.upper) + 2 * q5;
    var q3: nat := Bit(f.exponent) + 2 * q4;
    var q2: nat := Bit(f.fraction) + 2 * q3;
    var q1: nat := Bit(f.negative) + 2 * q2;
    LowestBit(f.minus, q6);
    LowestBit(f.upper, q5);
    LowestBit(f.exponent, q4);
    LowestBit(f.fraction, q3);
    LowestBit(f.negative, q2);
    LowestBit(f.zero, q1);
  }

  /** Each flag has its bit in the byte. */
  lemma FlagBits(f: NumberFlags)
    ensures f.Byte() == Bit(f.zero) + 2 * Bit(f.negative) + 4 * Bit(f.fraction) + 8 * Bit(f.exponent)
            + 16 * Bit(f.upper) + 32 * Bit(f.minus) + 64 * Bit(f.plus)
  {
    hide Bit;
  }

  datatype JsonNumber = JsonNumber(flags: NumberFlags, integerPart: nat, fractionZeroes: byte, fractionPart: nat,
                                   exponentZeroes: byte, exponentPart: nat)

  datatype Token =
    | Simple(simple: Kind)
    | Space(b: byte)
    | Escape(b: byte)
    // the bytes, merged least significant first, and their number
    | Character(value: nat, length: nat)
    | EscapedCharacter(value: nat, length: nat)
    | NumberToken(number: JsonNumber)
  {
    function Kind(): Kind {
      match this
      case Simple(k) => k
      case Space(_) => Whitespace
      case Escape(_) => EscapeSequence
      case Character(_, _) => UnicodeCharacter
      case EscapedCharacter(_, _) => EscapedUnicodeCharcode
      case NumberToken(_) => Number
    }
  }

  // ---------------------------------------------------------------- text

  /** The lowest `count` bytes of a value, least significant first. */
  function LowBytes(value: nat, count: nat): (r: seq<byte>)
    ensures |r| == count
  {
    if count == 0 then [] else [value % 256] + LowBytes(value / 256, count - 1)
  }

  /** The value that holds the bytes, least significant first. */
  function Merge(bytes: seq<byte>): nat {
    if bytes == [] then 0 else bytes[0] + 256 * Merge(bytes[1..])
  }

  lemma {:induction false} MergeBack(bytes: seq<byte>)
    ensures LowBytes(Merge(bytes), |bytes|) == bytes
  {
    if bytes != [] {
      MergeBack(bytes[1..]);
      assert Merge(bytes) / 256 == Merge(bytes[1..]);
    }
  }

  /** Decimal digits without leading zeros. */
  function Digits(v: nat): (r: seq<byte>)
    ensures |r| > 0
  {
    if v < 10 then [0x30 + v] else Digits(v / 10) + [0x30 + v % 10]
  }

  /** Leading zeros, then the digits, if there is anything but zeros. */
  function ZeroesAndDigits(zeroes: nat, v: nat): seq<byte> {
    Repeat(0x30, zeroes) + if v == 0 then [] else Digits(v)
  }

  function FractionText(n: JsonNumber): seq<byte> {
    if n.flags.fraction then [0x2E] + ZeroesAndDigits(n.fractionZeroes, n.fractionPart) else []
  }

  function SignText(n: JsonNumber): seq<byte> {
    if n.flags.plus then [0x2B]
    else if n.flags.minus then [0x2D]
    else []
  }

  function ExponentText(n: JsonNumber): seq<byte> {
    if n.flags.exponent then
      [if n.flags.upper then 0x45 else 0x65] + (SignText(n) + ZeroesAndDigits(n.exponentZeroes, n.exponentPart))
    else []
  }

  function NumberText(n: JsonNumber): seq<byte> {
    (if n.flags.negative then [0x2D] else []) + (Digits(n.integerPart) + (FractionText(n) + ExponentText(n)))
  }

  function SimpleText(k: Kind): seq<byte> {
    match k
    case ObjectOpen => [0x7B]
    case ObjectClose => [0x7D]
    case ArrayOpen => [0x5B]
    case ArrayClose => [0x5D]
    case True => TRUE_BYTES
    case False => FALSE_BYTES
    case Null => NULL_BYTES
    case ValueSeparator => [0x2C]
    case StringDelimiter => [0x22]
    case KvSeparator => [0x3A]
    case Bom => BOM_BYTES
    case _ => []
  }

  function Text(t: Token): seq<byte> {
    match t
    case Simple(k) => SimpleText(k)
    case Space(b) => [b]
    case Escape(b) => [0x5C, b]
    case Character(value, length) => LowBytes(value, length)
    case EscapedCharacter(value, _) => [0x5C, 0x75] + LowBytes(value, 4)
    case NumberToken(n) => NumberText(n)
  }

  // ---------------------------------------------------------------- the detokenizer

  method WriteDigits(w: ByteSink, v: nat) returns (count: nat)
    modifies w
    ensures w.bytes == old(w.bytes) + Digits(v) && count == |Digits(v)|
    decreases v
  {
    var rem, value := v % 10, v / 10;
    count := 1;
    if value != 0 {
      var more := WriteDigits(w, value);
      count := count + more;
    }
    w.WriteByte(0x30 + rem);
  }

  method WriteBytes(w: ByteSink, bytes: seq<byte>)
    modifies w
    ensures w.bytes == old(w.bytes) + bytes
  {
    var i := 0;
    while i < |bytes|
      invariant 0 <= i <= |bytes| && w.bytes == old(w.bytes) + bytes[..i]
    {
      w.WriteByte(bytes[i]);
      i := i + 1;
    }
  }

  /** Masking with 0xff leaves the lowest byte. */
  lemma LowByteIsMasked(value: nat)
    ensures And(value, 0xFF) == value % 256
  {
    assert Arithmetic.Pow2(8) == 256;
    AndMask(value, 8);
  }

  method WriteLowBytes(w: ByteSink, value: nat, count: nat)
    modifies w
    ensures w.bytes == old(w.bytes) + LowBytes(value, count)
  {
    var chars, i := value, 0;
    while i < count
      invariant 0 <= i <= count && w.bytes + LowBytes(chars, count - i) == old(w.bytes) + LowBytes(value, count)
    {
      LowByteIsMasked(chars);
      w.WriteByte(And(chars, 0xFF));
      chars := chars / 256;
      i := i + 1;
    }
  }

  method WriteZeroesAndDigits(w: ByteSink, zeroes: nat, v: nat) returns (count: nat)
    modifies w
    ensures w.bytes == old(w.bytes) + ZeroesAndDigits(zeroes, v) && count == |ZeroesAndDigits(zeroes, v)|
  {
    var i := 0;
    while i < zeroes
      invariant 0 <= i <= zeroes && w.bytes == old(w.bytes) + Repeat(0x30, i)
    {
      w.WriteByte(0x30);
      i := i + 1;
    }
    count := zeroes;
    if v != 0 {
      var digits := WriteDigits(w, v);
      count := count + digits;
    }
  }

  method WriteFraction(w: ByteSink, n: JsonNumber) returns (count: nat)
    modifies w
    ensures w.bytes == old(w.bytes) + FractionText(n) && count == |FractionText(n)|
  {
    count := 0;
    if n.flags.fraction {
      w.WriteByte(0x2E);
      var digits := WriteZeroesAndDigits(w, n.fractionZeroes, n.fractionPart);
      count := 1 + digits;
    }
  }

  method WriteExponent(w: ByteSink, n: JsonNumber) returns (count: nat)
    modifies w
    ensures w.bytes == old(w.bytes) + ExponentText(n) && count == |ExponentText(n)|
  {
    count := 0;
    if n.flags.exponent {
      w.WriteByte(if n.flags.upper then 0x45 else 0x65);
      count := 1;
      if n.flags.plus || n.flags.minus {
        w.WriteByte(if n.flags.plus then 0x2B else 0x2D);
        count := count + 1;
      }
      var digits := WriteZeroesAndDigits(w, n.exponentZeroes, n.exponentPart);
      count := count + digits;
    }
  }

  lemma JoinFour(w: seq<byte>, a: seq<byte>, b: seq<byte>, c: seq<byte>, d: seq<byte>)
    ensures w + (a + (b + (c + d))) == (((w + a) + b) + c) + d
    ensures w + [] == w
  {
  }

  method WriteNumber(w: ByteSink, n: JsonNumber) returns (count: nat)
    modifies w
    ensures w.bytes == old(w.bytes) + NumberText(n) && count == |NumberText(n)|
  {
    hide Digits, FractionText, ExponentText;
    count := 0;
    if n.flags.negative {
      w.WriteByte(0x2D);
      count := 1;
    }
    var integer := WriteDigits(w, n.integerPart);
    var fraction := WriteFraction(w, n);
    var exponent := WriteExponent(w, n);
    count := count + integer + fraction + exponent;
    JoinFour(old(w.bytes), if n.flags.negative then [0x2D]
      else [], Digits(n.integerPart), FractionText(n), ExponentText(n));
  }

  /** Write a token's text; the result is the number of bytes written. */
  method Detokenize(w: ByteSink, t: Token) returns (count: nat)
    modifies w
    ensures w.bytes == old(w.bytes) + Text(t) && count == |Text(t)|
  {
    match t {
      case Simple(k) =>
        WriteBytes(w, SimpleText(k));
        count := |SimpleText(k)|;
      case Space(b) =>
        w.WriteByte(b);
        count := 1;
      case Escape(b) =>
        w.WriteByte(0x5C);
        w.WriteByte(b);
        count := 2;
      case Character(value, length) =>
        WriteLowBytes(w, value, length);
        count := length;
      case EscapedCharacter(value, _) =>
        w.WriteByte(0x5C);
        w.WriteByte(0x75);
        WriteLowBytes(w, value, 4);
        count := 6;
      case NumberToken(n) =>
        count := WriteNumber(w, n);
    }
  }
}
