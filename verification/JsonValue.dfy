/** JSON values, the error codes of the parser, and the bytes that JSON text is made of. */
module JsonValue {
  import opened Bytes

  /**
   Integers are of a signed or of an unsigned type. A number that is not an integer, or too large
   for one, keeps the text it was read from.
   */
  datatype Value = Null | Bool(b: bool) | Str(s: seq<byte>) | Signed(n: int) | Unsigned(n: int)
                 | Double(text: seq<byte>) | Arr(elems: seq<Value>) | Obj(members: seq<Member>)

  datatype Member = Member(name: seq<byte>, value: Value)

  datatype Error =
    | ArrayExpected | ObjectExpected | OutOfMemory | NullExpected | FalseExpected | TrueExpected | InvalidHex
    | CorruptedSurrogatePair | InvalidSurrogatePair | InvalidEscapeChar | UnterminatedString | UnescapedChar
    | NumberLeadingZero | NumberExpected | NumberFracExpected | NumberExpExpected | NumberRange
    | CorruptedArray | StringExpected | ColonExpected | CorruptedObject | EmptyDocument | TrailingSymbols | UnknownType

  const NUL: byte := 0
  const TAB: byte := 9
  const LF: byte := 10
  const CR: byte := 13
  const SPACE: byte := 32
  const QUOTE: byte := 34
  const PLUS: byte := 43
  const COMMA: byte := 44
  const MINUS: byte := 45
  const DOT: byte := 46
  const ZERO: byte := 48
  const COLON: byte := 58
  const UPPER_E: byte := 69
  const LBRACKET: byte := 91
  const BACKSLASH: byte := 92
  const RBRACKET: byte := 93
  const LOWER_E: byte := 101
  const LOWER_U: byte := 117
  const LBRACE: byte := 123
  const RBRACE: byte := 125

  const NULL_TEXT: seq<byte> := [110, 117, 108, 108]
  const TRUE_TEXT: seq<byte> := [116, 114, 117, 101]
  const FALSE_TEXT: seq<byte> := [102, 97, 108, 115, 101]

  const LLONG_MIN: int := -0x8000_0000_0000_0000
  const LLONG_MAX: int := 0x7FFF_FFFF_FFFF_FFFF
  const ULLONG_MAX: int := 0xFFFF_FFFF_FFFF_FFFF

  /** The type that the parser takes for an integer. */
  function IntOf(negative: bool, n: int): (v: Value) {
    if negative then Signed(n) else Unsigned(n)
  }

  predicate IsWs(b: byte) {
    b == SPACE || b == LF || b == CR || b == TAB
  }

  predicate IsDigit(b: byte) {
    48 <= b <= 57
  }

  /** The value of a hexadecimal digit, 255 for any other byte. */
  function HexValue(b: byte): (v: nat) {
    if 48 <= b <= 57 then b - 48
    else if 65 <= b <= 70 then b - 55
    else if 97 <= b <= 102 then b - 87
    else 255
  }

  /** What a backslash and `b` stand for, 0 when that is no short escape. */
  function Unescape(b: byte): (r: byte)
    ensures b == NUL ==> r == 0
  {
    if b == QUOTE || b == 47 || b == BACKSLASH then b
    else if b == 98 then 8
    else if b == 102 then 12
    else if b == 110 then LF
    else if b == 114 then CR
    else if b == 116 then TAB
    else 0
  }

  /** The code point of two surrogates. */
  function Combine(high: nat, low: nat): (cp: nat)
    requires 0xD800 <= high <= 0xDBFF && 0xDC00 <= low <= 0xDFFF
    ensures 0x1_0000 <= cp <= 0x10_FFFF
  {
    (high - 0xD800) * 0x400 + (low - 0xDC00) + 0x1_0000
  }

  function Utf8(cp: nat): (r: seq<byte>)
    requires cp <= 0x10_FFFF
    ensures 1 <= |r| <= 4 && (cp < 0x1_0000 ==> |r| <= 3)
  {
    if cp < 0x80 then [cp]
    else if cp < 0x800 then [0xC0 + cp / 0x40, 0x80 + cp % 0x40]
    else if cp < 0x1_0000 then [0xE0 + cp / 0x1000, 0x80 + cp / 0x40 % 0x40, 0x80 + cp % 0x40]
    else [0xF0 + cp / 0x4_0000, 0x80 + cp / 0x1000 % 0x40, 0x80 + cp / 0x40 % 0x40, 0x80 + cp % 0x40]
  }

  function DigitValue(b: byte): (v: nat) {
    if IsDigit(b) then b - 48 else 0
  }

  /** The number that a sequence of decimal digits denotes. */
  function Decimal(s: seq<byte>): (n: nat)
    decreases |s|
  {
    if s == [] then 0 else Decimal(s[..|s| - 1]) * 10 + DigitValue(s[|s| - 1])
  }

  predicate AllDigits(s: seq<byte>) {
    forall i :: 0 <= i < |s| ==> IsDigit(s[i])
  }

  predicate AllWs(s: seq<byte>) {
    forall i :: 0 <= i < |s| ==> IsWs(s[i])
  }
}
