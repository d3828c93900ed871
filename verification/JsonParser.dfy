/**
 The recursive-descent parser as functions of a NUL-terminated text: `s` is the text without
 its terminator, and reading at `|s|` gives the NUL.  That no read goes further is part of
 every function's precondition.
 */
module JsonParser {
  import opened Bytes
  import opened JsonValue

  /**
   `Unknown` is the error code for a byte that starts no value; the caller looks at the text
   again where it occurred.
   */
  datatype Res<T> = Ok(v: T, next: nat) | Unknown(at: nat) | Err(e: Error)

  /** Whether strtod accepts a number without a range error. */
  type RangeTest = seq<byte> -> bool

  function At(s: seq<byte>, i: nat): (b: byte)
    requires i <= |s|
  {
    if i < |s| then s[i] else NUL
  }

  function SkipWs(s: seq<byte>, i: nat): (r: nat)
    requires NulFree(s) && i <= |s|
    ensures i <= r <= |s| && !IsWs(At(s, r))
    decreases |s| - i
  {
    if IsWs(At(s, i)) then SkipWs(s, i + 1) else i
  }

  function SkipDigits(s: seq<byte>, i: nat): (r: nat)
    requires NulFree(s) && i <= |s|
    ensures i <= r <= |s| && !IsDigit(At(s, r))
    decreases |s| - i
  {
    if IsDigit(At(s, i)) then SkipDigits(s, i + 1) else i
  }

  // ---- strings

  function Hex4(s: seq<byte>, i: nat): (r: Res<nat>)
    requires NulFree(s) && i <= |s|
    ensures r.Ok? ==> r.next == i + 4 <= |s| && r.v < 0x1_0000
    ensures !r.Unknown? && (r.Err? ==> r.e != UnknownType && r.e != OutOfMemory)
  {
    var a := HexValue(At(s, i));
    if a > 15 then Err(InvalidHex) else
      var b := HexValue(At(s, i + 1));
      if b > 15 then Err(InvalidHex) else
        var c := HexValue(At(s, i + 2));
        if c > 15 then Err(InvalidHex) else
          var d := HexValue(At(s, i + 3));
          if d > 15 then Err(InvalidHex) else Ok(a * 0x1000 + b * 0x100 + c * 0x10 + d, i + 4)
  }

  /** One pass through the loop over a string: some decoded bytes, or its closing quote. */
  datatype Pass = Piece(bytes: seq<byte>, next: nat) | Closed(next: nat) | Failed(e: Error)

  function PassAt(s: seq<byte>, i: nat): (r: Pass)
    requires NulFree(s) && i <= |s|
    ensures r.Piece? ==> i < r.next <= |s| && 1 <= |r.bytes| <= r.next - i
    ensures r.Closed? ==> r.next == i + 1 <= |s|
    ensures r.Failed? ==> r.e != UnknownType && r.e != OutOfMemory
  {
    var c := At(s, i);
    if c == BACKSLASH then EscapeAt(s, i)
    else if c == QUOTE then Closed(i + 1)
    else if c == NUL then Failed(UnterminatedString)
    else if c < 0x20 then Failed(UnescapedChar)
    else Piece([c], i + 1)
  }

  function EscapeAt(s: seq<byte>, i: nat): (r: Pass)
    requires NulFree(s) && i < |s|
    ensures r.Piece? ==> i < r.next <= |s| && 1 <= |r.bytes| <= r.next - i
    ensures !r.Closed? && (r.Failed? ==> r.e != UnknownType && r.e != OutOfMemory)
  {
    var e := At(s, i + 1);
    if Unescape(e) != 0 then Piece([Unescape(e)], i + 2)
    else if e != LOWER_U then Failed(InvalidEscapeChar)
    else
      match Hex4(s, i + 2)
      case Err(e) => Failed(e)
      case Ok(cp, j) =>
        if !(0xD800 <= cp <= 0xDBFF) then Piece(Utf8(cp), j)
        else if At(s, j) != BACKSLASH || At(s, j + 1) != LOWER_U then Failed(CorruptedSurrogatePair)
        else
          match Hex4(s, j + 2)
          case Err(e) => Failed(e)
          case Ok(low, k) =>
            if !(0xDC00 <= low <= 0xDFFF) then Failed(InvalidSurrogatePair)
            else Piece(Utf8(Combine(cp, low)), k)
  }

  /** The rest of a string, of which `out` has been decoded already. */
  function StringFrom(s: seq<byte>, i: nat, out: seq<byte>): (r: Res<seq<byte>>)
    requires NulFree(s) && i <= |s|
    ensures r.Ok? ==> i < r.next <= |s|
    ensures !r.Unknown? && (r.Err? ==> r.e != UnknownType && r.e != OutOfMemory)
    decreases |s| - i
  {
    match PassAt(s, i)
    case Piece(bytes, next) => StringFrom(s, next, out + bytes)
    case Closed(next) => Ok(out, next)
    case Failed(e) => Err(e)
  }

  // ---- numbers

  /** The end of an optional part that starts with `.` or with `e`. */
  function SkipFrac(s: seq<byte>, i: nat): (r: Res<bool>)
    requires NulFree(s) && i <= |s|
    ensures r.Ok? ==> && i <= r.next <= |s| && (r.v <==> At(s, i) == DOT) && (r.v ==> r.next > i + 1)
                      && (!r.v ==> r.next == i)
    ensures !r.Unknown? && (r.Err? ==> r.e != UnknownType && r.e != OutOfMemory)
  {
    if At(s, i) != DOT then Ok(false, i)
    else
      var j := SkipDigits(s, i + 1);
      if j == i + 1 then Err(NumberFracExpected) else Ok(true, j)
  }

  function SkipExp(s: seq<byte>, i: nat): (r: Res<bool>)
    requires NulFree(s) && i <= |s|
    ensures r.Ok? ==> && i <= r.next <= |s| && (r.v <==> At(s, i) == LOWER_E || At(s, i) == UPPER_E)
                      && (!r.v ==> r.next == i)
    ensures !r.Unknown? && (r.Err? ==> r.e != UnknownType && r.e != OutOfMemory)
  {
    if At(s, i) != LOWER_E && At(s, i) != UPPER_E then Ok(false, i)
    else
      var j := if At(s, i + 1) == PLUS || At(s, i + 1) == MINUS then i + 2 else i + 1;
      var k := SkipDigits(s, j);
      if k == j then Err(NumberExpExpected) else Ok(true, k)
  }

  /** The value of a number that was found to be well formed. */
  function NumberValue(dbl: RangeTest, negative: bool, digits: seq<byte>, plain: bool, text: seq<byte>,
                       next: nat): (r: Res<Value>)
    ensures r.Ok? ==> r.next == next
    ensures !r.Unknown? && (r.Err? ==> r.e != UnknownType && r.e != OutOfMemory)
  {
    var d: int := Decimal(digits);
    var n := if negative then -d else d;
    if plain && LLONG_MIN <= n <= ULLONG_MAX then Ok(IntOf(negative, n), next)
    else if dbl(text) then Ok(Double(text), next)
    else Err(NumberRange)
  }

  function Number(dbl: RangeTest, s: seq<byte>, i: nat): (r: Res<Value>)
    requires NulFree(s) && i <= |s|
    ensures r.Ok? ==> i < r.next <= |s|
    ensures !r.Unknown? && (r.Err? ==> r.e != UnknownType && r.e != OutOfMemory)
  {
    var negative := At(s, i) == MINUS;
    var k := if negative then i + 1 else i;
    if At(s, k) == ZERO && IsDigit(At(s, k + 1)) then Err(NumberLeadingZero)
    else
      var d := SkipDigits(s, k);
      if d == k then Err(NumberExpected)
      else
        match SkipFrac(s, d)
        case Err(e) => Err(e)
        case Ok(frac, f) =>
          match SkipExp(s, f)
          case Err(e) => Err(e)
          case Ok(exp, j) => NumberValue(dbl, negative, s[k..d], !frac && !exp, s[i..j], j)
  }

  // ---- values

  function Literal(s: seq<byte>, i: nat, text: seq<byte>, v: Value, e: Error): (r: Res<Value>)
    requires text != [] && i <= |s| && e != UnknownType && e != OutOfMemory
    ensures r.Ok? ==> i < r.next <= |s|
    ensures !r.Unknown? && (r.Err? ==> r.e != UnknownType && r.e != OutOfMemory)
  {
    if text <= s[i..] then Ok(v, i + |text|) else Err(e)
  }

  function ParseValue(dbl: RangeTest, s: seq<byte>, i: nat): (r: Res<Value>)
    requires NulFree(s) && i <= |s|
    ensures r.Ok? ==> i < r.next <= |s|
    ensures r.Unknown? ==> i <= r.at <= |s|
    ensures r.Err? ==> r.e != UnknownType && r.e != OutOfMemory
    decreases |s| - i, 0
  {
    var c := At(s, i);
    if c == 110 then Literal(s, i, NULL_TEXT, Null, NullExpected)
    else if c == 116 then Literal(s, i, TRUE_TEXT, Bool(true), TrueExpected)
    else if c == 102 then Literal(s, i, FALSE_TEXT, Bool(false), FalseExpected)
    else if c == LBRACKET then
      var j := SkipWs(s, i + 1);
      if At(s, j) == RBRACKET then Ok(Arr([]), j + 1) else ArrayFrom(dbl, s, j, [])
    else if c == LBRACE then
      var j := SkipWs(s, i + 1);
      if At(s, j) == RBRACE then Ok(Obj([]), j + 1) else ObjectFrom(dbl, s, j, [])
    else if c == QUOTE then
      match StringFrom(s, i + 1, [])
      case Ok(str, j) => Ok(Str(str), j)
      case Err(e) => Err(e)
    else if c != MINUS && !IsDigit(c) then Unknown(i)
    else Number(dbl, s, i)
  }

  /** The loop over array elements, standing at the start of one. */
  function ArrayFrom(dbl: RangeTest, s: seq<byte>, i: nat, elems: seq<Value>): (r: Res<Value>)
    requires NulFree(s) && i <= |s|
    ensures r.Ok? ==> i < r.next <= |s|
    ensures r.Unknown? ==> i <= r.at <= |s|
    ensures r.Err? ==> r.e != UnknownType && r.e != OutOfMemory
    decreases |s| - i, 1
  {
    match ParseValue(dbl, s, i)
    case Err(e) => Err(e)
    case Unknown(at) => if At(s, at) == RBRACKET then Err(CorruptedArray) else Unknown(at)
    case Ok(v, j) =>
      var k := SkipWs(s, j);
      if At(s, k) == COMMA then ArrayFrom(dbl, s, SkipWs(s, k + 1), elems + [v])
      else if At(s, k) == RBRACKET then Ok(Arr(elems + [v]), k + 1)
      else Err(CorruptedArray)
  }

  /** The name of a member and the colon after it, up to the start of the value. */
  function NameAt(s: seq<byte>, i: nat): (r: Res<seq<byte>>)
    requires NulFree(s) && i <= |s|
    ensures r.Ok? ==> i < r.next <= |s|
    ensures !r.Unknown? && (r.Err? ==> r.e != UnknownType && r.e != OutOfMemory)
  {
    if At(s, i) != QUOTE then Err(StringExpected)
    else
      match StringFrom(s, i + 1, [])
      case Err(e) => Err(e)
      case Ok(name, j) =>
        var k := SkipWs(s, j);
        if At(s, k) != COLON then Err(ColonExpected) else Ok(name, SkipWs(s, k + 1))
  }

  /** The loop over object members, standing at the start of one. */
  function ObjectFrom(dbl: RangeTest, s: seq<byte>, i: nat, members: seq<Member>): (r: Res<Value>)
    requires NulFree(s) && i <= |s|
    ensures r.Ok? ==> i < r.next <= |s|
    ensures r.Unknown? ==> i <= r.at <= |s|
    ensures r.Err? ==> r.e != UnknownType && r.e != OutOfMemory
    decreases |s| - i, 1
  {
    match NameAt(s, i)
    case Err(e) => Err(e)
    case Ok(name, j) =>
      match ParseValue(dbl, s, j)
      case Err(e) => Err(e)
      case Unknown(at) => if At(s, at) == RBRACE then Err(CorruptedObject) else Unknown(at)
      case Ok(v, k) =>
        var m := SkipWs(s, k);
        if At(s, m) == COMMA then ObjectFrom(dbl, s, SkipWs(s, m + 1), members + [Member(name, v)])
        else if At(s, m) == RBRACE then Ok(Obj(members + [Member(name, v)]), m + 1)
        else Err(CorruptedObject)
  }

  /** Which kind of document the caller asked for. */
  datatype Root = ArrayRoot | ObjectRoot

  datatype Document = Parsed(v: Value) | Rejected(e: Error)

  function ParseDocument(dbl: RangeTest, root: Root, s: seq<byte>): (r: Document)
    requires NulFree(s)
  {
    var i := SkipWs(s, 0);
    if At(s, i) != (if root == ArrayRoot then LBRACKET else LBRACE) then
      Rejected(if At(s, i) == NUL then EmptyDocument else if root == ArrayRoot then ArrayExpected else ObjectExpected)
    else
      match ParseValue(dbl, s, i)
      case Err(e) => Rejected(e)
      case Unknown(_) => Rejected(UnknownType)
      case Ok(v, j) => if At(s, SkipWs(s, j)) != NUL then Rejected(TrailingSymbols) else Parsed(v)
  }
}
