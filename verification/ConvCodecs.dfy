/**
 The encodings that text is converted between: UTF-8 (RFC 3629), UTF-16 (RFC 2781), UTF-32 and
 the single-byte charsets that the charset compiler makes functions for. Where bits are joined
 that do not overlap, the model adds.
 */
module ConvCodecs {
  import opened Bytes
  import CharsetCode

  const UNICODE_MAX: nat := 0x10_FFFF
  const SUR_HIGH_START: nat := 0xD800
  const SUR_LOW_START: nat := 0xDC00
  const SUR_LOW_END: nat := 0xDFFF

  /** A code point that is no half of a surrogate pair. */
  predicate IsScalar(cp: nat) {
    cp <= UNICODE_MAX && !(SUR_HIGH_START <= cp <= SUR_LOW_END)
  }

  datatype Codec = Utf8 | Utf16(big: bool) | Utf32(big: bool)
                 | SingleByte(toUni: CharsetCode.Program, uniTo: CharsetCode.Program)

  /** A character of `n` bytes, too few bytes, or a byte that cannot be, at an offset. */
  datatype Decoded = Char(cp: nat, n: nat) | TooShort | Illegal(at: nat)

  predicate IsContinuation(b: byte) {
    b / 0x40 == 2
  }

  /** Digits of 6 bits. */
  function Digits(a: nat, b: nat, c: nat, d: nat): nat {
    a * 0x4_0000 + b * 0x1000 + c * 0x40 + d
  }

  function Low(b: byte, n: nat): nat
    requires n > 0
  {
    (b as int) % n
  }

  function DecodeUtf8(s: seq<byte>): Decoded
    requires |s| > 0
  {
    var b0 := s[0];
    if b0 < 0x80 then Char(b0, 1)
    else if b0 < 0xC2 then Illegal(1)
    else if b0 < 0xE0 then
      if |s| < 2 then TooShort
      else if !IsContinuation(s[1]) then Illegal(1)
      else Char(Digits(0, 0, Low(b0, 0x20), Low(s[1], 0x40)), 2)
    else if b0 < 0xF0 then
      if |s| < 3 then TooShort
      else if b0 == 0xE0 && s[1] < 0xA0 then Illegal(1)
      else if !IsContinuation(s[1]) then Illegal(1)
      else if !IsContinuation(s[2]) then Illegal(2)
      else Char(Digits(0, Low(b0, 0x10), Low(s[1], 0x40), Low(s[2], 0x40)), 3)
    else if b0 < 0xF5 then
      if |s| < 4 then TooShort
      else if (b0 == 0xF0 && s[1] < 0x90) || (b0 == 0xF4 && s[1] >= 0x90) then Illegal(1)
      else if !IsContinuation(s[1]) then Illegal(1)
      else if !IsContinuation(s[2]) then Illegal(2)
      else if !IsContinuation(s[3]) then Illegal(3)
      else Char(Digits(Low(b0, 8), Low(s[1], 0x40), Low(s[2], 0x40), Low(s[3], 0x40)), 4)
    else Illegal(0)
  }

  /** From the last byte to the first, with the mark of the length pushed along above the bits. */
  function EncodeUtf8(cp: nat): (b: seq<byte>)
    requires cp <= UNICODE_MAX
  {
    if cp < 0x80 then [cp]
    else if cp < 0x800 then
      var c1 := cp / 0x40 + 0xC0;
      [c1 % 0x100, 0x80 + cp % 0x40]
    else if cp < 0x1_0000 then
      var c2 := cp / 0x40 + 0x800;
      var c1 := c2 / 0x40 + 0xC0;
      [c1 % 0x100, 0x80 + c2 % 0x40, 0x80 + cp % 0x40]
    else
      var c3 := cp / 0x40 + 0x1_0000;
      var c2 := c3 / 0x40 + 0x800;
      var c1 := c2 / 0x40 + 0xC0;
      [c1 % 0x100, 0x80 + c2 % 0x40, 0x80 + c3 % 0x40, 0x80 + cp % 0x40]
  }

  function Word16(big: bool, s: seq<byte>): (w: nat)
    requires |s| >= 2
    ensures w < 0x1_0000
  {
    var x: int, y: int := s[0], s[1];
    if big then x * 0x100 + y else y * 0x100 + x
  }

  function Word16Bytes(big: bool, w: nat): (b: seq<byte>)
    requires w < 0x1_0000
    ensures |b| == 2
  {
    if big then [w / 0x100, w % 0x100] else [w % 0x100, w / 0x100]
  }

  function DecodeUtf16(big: bool, s: seq<byte>): Decoded {
    if |s| < 2 then TooShort
    else
      var w0 := Word16(big, s);
      if w0 < SUR_HIGH_START || w0 > SUR_LOW_END then Char(w0, 2)
      else if w0 >= SUR_LOW_START then Illegal(0)
      else if |s| < 4 then TooShort
      else
        var w1 := Word16(big, s[2..]);
        if w1 < SUR_LOW_START || w1 > SUR_LOW_END then Illegal(2)
        else Char(w0 % 0x400 * 0x400 + w1 % 0x400 + 0x1_0000, 4)
  }

  function EncodeUtf16(big: bool, cp: nat): (b: seq<byte>)
    requires cp <= UNICODE_MAX
  {
    if cp < 0x1_0000 then Word16Bytes(big, cp)
    else
      var c := cp - 0x1_0000;
      Word16Bytes(big, c / 0x400 % 0x400 + SUR_HIGH_START) + Word16Bytes(big, c % 0x400 + SUR_LOW_START)
  }

  function Reversed4(s: seq<byte>): (r: seq<byte>)
    requires |s| == 4
    ensures |r| == 4
  {
    [s[3], s[2], s[1], s[0]]
  }

  function DecodeUtf32(big: bool, s: seq<byte>): Decoded {
    if |s| < 4 then TooShort
    else
      var cp := FromBe32(if big then s[..4] else Reversed4(s[..4]));
      if IsScalar(cp) then Char(cp, 4) else Illegal(0)
  }

  function EncodeUtf32(big: bool, cp: nat): (b: seq<byte>)
    ensures |b| == 4
  {
    if big then Be32(cp) else Reversed4(Be32(cp))
  }

  function Decode(c: Codec, s: seq<byte>): Decoded
    requires |s| > 0
  {
    match c
    case Utf8 => DecodeUtf8(s)
    case Utf16(big) => DecodeUtf16(big, s)
    case Utf32(big) => DecodeUtf32(big, s)
    case SingleByte(p, _) =>
      var o := CharsetCode.Eval(p, true, s[0]);
      if o.Code? then Char(o.code, 1) else Illegal(0)
  }

  /** The bytes of a character, or none if the charset does not have it. */
  function Encode(c: Codec, cp: nat): (b: seq<byte>)
    requires cp <= UNICODE_MAX
  {
    match c
    case Utf8 => EncodeUtf8(cp)
    case Utf16(big) => EncodeUtf16(big, cp)
    case Utf32(big) => EncodeUtf32(big, cp)
    case SingleByte(_, q) =>
      var o := CharsetCode.Eval(q, false, cp);
      if o.Code? then [o.code % 0x100] else []
  }

  predicate IsUtf(c: Codec) {
    !c.SingleByte?
  }

  // ---- one character

  /** What is decoded is at least one byte of what is there. */
  lemma DecodedSize(c: Codec, s: seq<byte>)
    requires |s| > 0 && Decode(c, s).Char?
    ensures 0 < Decode(c, s).n <= |s|
  {
  }

  /** More input changes an answer only where there was too little of it. */
  lemma DecodeMore(c: Codec, s: seq<byte>, more: seq<byte>)
    requires |s| > 0 && !Decode(c, s).TooShort?
    ensures Decode(c, s + more) == Decode(c, s)
  {
    match c
    case Utf8 =>
    case Utf16(big) =>
      if |s| >= 4 {
        assert (s + more)[2..][..2] == s[2..][..2];
      }
    case Utf32(big) =>
      assert (s + more)[..4] == s[..4];
    case SingleByte(_, _) =>
  }

  lemma FourBytes(a: nat, b: nat, c: nat, d: nat)
    requires a <= 4 && b < 0x40 && c < 0x40 && d < 0x40 && (a > 0 || b >= 0x10) && Digits(a, b, c, d) <= UNICODE_MAX
    ensures EncodeUtf8(Digits(a, b, c, d)) == [0xF0 + a, 0x80 + b, 0x80 + c, 0x80 + d]
  {
    Quotients(a, b, c, d);
    assert Digits(a, b, c, d) >= 0x1_0000;
    var c3 := Digits(a, b, c, d) / 0x40 + 0x1_0000;
    assert c3 == (a * 0x40 + b + 0x400) * 0x40 + c;
    assert c3 / 0x40 == a * 0x40 + b + 0x400 && c3 % 0x40 == c;
    var c2 := c3 / 0x40 + 0x800;
    assert c2 == (a + 0x30) * 0x40 + b;
    assert c2 / 0x40 == a + 0x30 && c2 % 0x40 == b;
  }

  lemma ThreeBytes(b: nat, c: nat, d: nat)
    requires b < 0x10 && c < 0x40 && d < 0x40 && (b > 0 || c >= 0x20)
    ensures EncodeUtf8(Digits(0, b, c, d)) == [0xE0 + b, 0x80 + c, 0x80 + d]
  {
    Quotients(0, b, c, d);
    var c2 := Digits(0, b, c, d) / 0x40 + 0x800;
    assert c2 == (b + 0x20) * 0x40 + c;
    assert c2 / 0x40 == b + 0x20 && c2 % 0x40 == c;
  }

  /** How UTF-8 lays out the digits of a code point. */
  lemma Utf8Layout(a: nat, b: nat, c: nat, d: nat)
    requires b < 0x40 && c < 0x40 && d < 0x40 && Digits(a, b, c, d) <= UNICODE_MAX
    ensures a <= 4
    ensures EncodeUtf8(Digits(a, b, c, d)) ==
            if a > 0 || b >= 0x10 then [0xF0 + a, 0x80 + b, 0x80 + c, 0x80 + d]
            else if b > 0 || c >= 0x20 then [0xE0 + b, 0x80 + c, 0x80 + d]
            else if c >= 2 then [0xC0 + c, 0x80 + d]
            else [c * 0x40 + d]
  {
    if a > 0 || b >= 0x10 {
      FourBytes(a, b, c, d);
    } else if b > 0 || c >= 0x20 {
      ThreeBytes(b, c, d);
    } else {
      Quotients(a, b, c, d);
    }
  }

  lemma Quotients(a: nat, b: nat, c: nat, d: nat)
    requires b < 0x40 && c < 0x40 && d < 0x40
    ensures Digits(a, b, c, d) / 0x40 == a * 0x1000 + b * 0x40 + c && Digits(a, b, c, d) % 0x40 == d
  {
    assert Digits(a, b, c, d) == (a * 0x1000 + b * 0x40 + c) * 0x40 + d;
  }

  lemma SplitDigits(cp: nat) returns (a: nat, b: nat, c: nat, d: nat)
    ensures b < 0x40 && c < 0x40 && d < 0x40 && cp == Digits(a, b, c, d)
  {
    var x := cp / 0x40;
    var y := x / 0x40;
    a, b, c, d := y / 0x40, y % 0x40, x % 0x40, cp % 0x40;
  }

  /** What is left of a byte without its mark. */
  lemma LowOf(b: byte)
    ensures 0x80 <= b < 0xC0 ==> Low(b, 0x40) == b - 0x80
    ensures 0xC0 <= b < 0xE0 ==> Low(b, 0x20) == b - 0xC0
    ensures 0xE0 <= b < 0xF0 ==> Low(b, 0x10) == b - 0xE0
    ensures 0xF0 <= b < 0xF8 ==> Low(b, 8) == b - 0xF0
  {
  }

  lemma ReadFour(s: seq<byte>, a: nat, b: nat, c: nat, d: nat)
    requires |s| >= 4 && a <= 4 && b < 0x40 && c < 0x40 && d < 0x40 && (a > 0 || b >= 0x10) && (a == 4 ==> b < 0x10)
    requires s[0] == 0xF0 + a && s[1] == 0x80 + b && s[2] == 0x80 + c && s[3] == 0x80 + d
    ensures DecodeUtf8(s) == Char(Digits(a, b, c, d), 4)
  {
    hide Low, Digits;
    LowOf(s[0]);
    LowOf(s[1]);
    LowOf(s[2]);
    LowOf(s[3]);
  }

  lemma ReadThree(s: seq<byte>, b: nat, c: nat, d: nat)
    requires |s| >= 3 && b < 0x10 && c < 0x40 && d < 0x40 && (b > 0 || c >= 0x20)
    requires s[0] == 0xE0 + b && s[1] == 0x80 + c && s[2] == 0x80 + d
    ensures DecodeUtf8(s) == Char(Digits(0, b, c, d), 3)
  {
    hide Low, Digits;
    LowOf(s[0]);
    LowOf(s[1]);
    LowOf(s[2]);
  }

  lemma ReadTwo(s: seq<byte>, c: nat, d: nat)
    requires |s| >= 2 && 2 <= c < 0x20 && d < 0x40 && s[0] == 0xC0 + c && s[1] == 0x80 + d
    ensures DecodeUtf8(s) == Char(Digits(0, 0, c, d), 2)
  {
    hide Low, Digits;
    LowOf(s[0]);
    LowOf(s[1]);
  }

  lemma Utf8ThereAndBack(cp: nat, more: seq<byte>)
    requires cp <= UNICODE_MAX
    ensures 1 <= |EncodeUtf8(cp)| <= 4 && DecodeUtf8(EncodeUtf8(cp) + more) == Char(cp, |EncodeUtf8(cp)|)
  {
    hide EncodeUtf8, DecodeUtf8, Digits;
    var a, b, c, d := SplitDigits(cp);
    Utf8Layout(a, b, c, d);
    var s := EncodeUtf8(cp) + more;
    if a > 0 || b >= 0x10 {
      TopDigits(a, b, c, d);
      ReadFour(s, a, b, c, d);
    } else if b > 0 || c >= 0x20 {
      ReadThree(s, b, c, d);
    } else if c >= 2 {
      ReadTwo(s, c, d);
    } else {
      TopDigits(a, b, c, d);
      ReadOne(s);
    }
  }

  lemma TopDigits(a: nat, b: nat, c: nat, d: nat)
    requires Digits(a, b, c, d) <= UNICODE_MAX
    ensures a <= 4 && (a == 4 ==> b < 0x10) && (a == 0 && b == 0 ==> Digits(a, b, c, d) == c * 0x40 + d)
  {
  }

  lemma ReadOne(s: seq<byte>)
    requires |s| > 0 && s[0] < 0x80
    ensures DecodeUtf8(s) == Char(s[0], 1)
  {
  }

  /** What a UTF-8 sequence of each length can be. */
  lemma Utf8Sequence(s: seq<byte>)
    requires |s| > 0 && DecodeUtf8(s).Char?
    ensures var n, cp := DecodeUtf8(s).n, DecodeUtf8(s).cp;
            && 1 <= n <= 4 && n <= |s| && (forall i :: 1 <= i < n ==> 0x80 <= s[i] < 0xC0)
            && (n == 1 ==> s[0] < 0x80 && cp == s[0])
            && (n == 2 ==> 0xC2 <= s[0] < 0xE0 && cp == Digits(0, 0, s[0] - 0xC0, s[1] - 0x80))
            && (n == 3 ==> 0xE0 <= s[0] < 0xF0 && cp == Digits(0, s[0] - 0xE0, s[1] - 0x80, s[2] - 0x80))
            && (n == 4 ==> 0xF0 <= s[0] < 0xF5 && cp == Digits(s[0] - 0xF0, s[1] - 0x80, s[2] - 0x80, s[3] - 0x80))
            && (n == 3 && s[0] == 0xE0 ==> s[1] >= 0xA0) && (n == 4 && s[0] == 0xF0 ==> s[1] >= 0x90)
            && (n == 4 && s[0] == 0xF4 ==> s[1] < 0x90)
  {
    hide Digits, Low;
    var n := DecodeUtf8(s).n;
    LowOf(s[0]);
    if n >= 2 {
      LowOf(s[1]);
    }
    if n >= 3 {
      LowOf(s[2]);
    }
    if n >= 4 {
      LowOf(s[3]);
    }
  }

  lemma Utf8BackAndThere(s: seq<byte>)
    requires |s| > 0 && DecodeUtf8(s).Char? && DecodeUtf8(s).cp <= UNICODE_MAX
    ensures DecodeUtf8(s).n <= |s| && EncodeUtf8(DecodeUtf8(s).cp) == s[..DecodeUtf8(s).n]
  {
    hide EncodeUtf8, DecodeUtf8, Digits;
    Utf8Sequence(s);
    var n := DecodeUtf8(s).n;
    if n == 1 {
      Utf8Ascii(s[0]);
    } else if n == 2 {
      Utf8Layout(0, 0, s[0] - 0xC0, s[1] - 0x80);
    } else if n == 3 {
      Utf8Layout(0, s[0] - 0xE0, s[1] - 0x80, s[2] - 0x80);
    } else {
      Utf8Layout(s[0] - 0xF0, s[1] - 0x80, s[2] - 0x80, s[3] - 0x80);
    }
  }

  lemma Utf8Ascii(cp: nat)
    requires cp < 0x80
    ensures EncodeUtf8(cp) == [cp]
  {
  }

  lemma Utf16ThereAndBack(big: bool, cp: nat, more: seq<byte>)
    requires IsScalar(cp)
    ensures 1 <= |EncodeUtf16(big, cp)| && DecodeUtf16(big, EncodeUtf16(big, cp) + more)
            == Char(cp, |EncodeUtf16(big, cp)|)
  {
    hide Word16, Word16Bytes;
    var b := EncodeUtf16(big, cp);
    if cp < 0x1_0000 {
      WordThereAndBack(big, cp, more);
    } else {
      var c := cp - 0x1_0000;
      var w0, w1 := c / 0x400 % 0x400 + SUR_HIGH_START, c % 0x400 + SUR_LOW_START;
      assert b + more == Word16Bytes(big, w0) + (Word16Bytes(big, w1) + more);
      WordThereAndBack(big, w0, Word16Bytes(big, w1) + more);
      WordThereAndBack(big, w1, more);
      assert (b + more)[2..] == Word16Bytes(big, w1) + more;
    }
  }

  lemma WordThereAndBack(big: bool, w: nat, more: seq<byte>)
    requires w < 0x1_0000
    ensures Word16(big, Word16Bytes(big, w) + more) == w
  {
  }

  lemma WordBackAndThere(big: bool, s: seq<byte>)
    requires |s| >= 2
    ensures Word16Bytes(big, Word16(big, s)) == s[..2]
  {
    var x: int, y: int := if big then s[0] else s[1], if big then s[1] else s[0];
    assert (x * 0x100 + y) / 0x100 == x && (x * 0x100 + y) % 0x100 == y;
  }

  lemma Utf16BackAndThere(big: bool, s: seq<byte>)
    requires DecodeUtf16(big, s).Char?
    ensures DecodeUtf16(big, s).n <= |s| && DecodeUtf16(big, s).cp <= UNICODE_MAX
    ensures EncodeUtf16(big, DecodeUtf16(big, s).cp) == s[..DecodeUtf16(big, s).n]
  {
    hide Word16, Word16Bytes;
    if |s| >= 2 {
      WordBackAndThere(big, s);
    }
    if DecodeUtf16(big, s).n == 4 {
      WordBackAndThere(big, s[2..]);
      assert s[..4] == s[..2] + s[2..][..2];
      var x, y := Word16(big, s) % 0x400, Word16(big, s[2..]) % 0x400;
      assert (x * 0x400 + y) / 0x400 == x && (x * 0x400 + y) % 0x400 == y;
    }
  }

  lemma Utf32ThereAndBack(big: bool, cp: nat, more: seq<byte>)
    requires IsScalar(cp)
    ensures DecodeUtf32(big, EncodeUtf32(big, cp) + more) == Char(cp, 4)
  {
    hide Be32, FromBe32;
    FromBe32OfBe32(cp);
    SplitConcat(EncodeUtf32(big, cp), more);
    assert Reversed4(Reversed4(Be32(cp))) == Be32(cp);
  }

  lemma Utf32BackAndThere(big: bool, s: seq<byte>)
    requires DecodeUtf32(big, s).Char?
    ensures |s| >= 4 && EncodeUtf32(big, DecodeUtf32(big, s).cp) == s[..4]
  {
    hide Be32, FromBe32;
    var b := if big then s[..4] else Reversed4(s[..4]);
    Be32OfFromBe32(b);
    assert Reversed4(Reversed4(s[..4])) == s[..4];
  }

  /** A scalar value is read back from its encoding, whatever follows. */
  lemma DecodeOfEncode(c: Codec, cp: nat, more: seq<byte>)
    requires IsUtf(c) && IsScalar(cp)
    ensures 1 <= |Encode(c, cp)| && Decode(c, Encode(c, cp) + more) == Char(cp, |Encode(c, cp)|)
  {
    hide EncodeUtf8, EncodeUtf16, EncodeUtf32, DecodeUtf8, DecodeUtf16, DecodeUtf32;
    match c
    case Utf8 => Utf8ThereAndBack(cp, more);
    case Utf16(big) => Utf16ThereAndBack(big, cp, more);
    case Utf32(big) => Utf32ThereAndBack(big, cp, more);
  }

  /** A scalar value is encoded as the bytes that it was read from: there is only one way. */
  lemma EncodeOfDecode(c: Codec, s: seq<byte>)
    requires IsUtf(c) && |s| > 0 && Decode(c, s).Char? && IsScalar(Decode(c, s).cp)
    ensures Decode(c, s).n <= |s| && Encode(c, Decode(c, s).cp) == s[..Decode(c, s).n]
  {
    hide EncodeUtf8, EncodeUtf16, EncodeUtf32, DecodeUtf8, DecodeUtf16;
    match c
    case Utf8 => Utf8BackAndThere(s);
    case Utf16(big) => Utf16BackAndThere(big, s);
    case Utf32(big) => Utf32BackAndThere(big, s);
  }

  /** The UTF-8 decoder lets the halves of surrogate pairs through, and nothing else that is no scalar value. */
  lemma Utf8Surrogates(s: seq<byte>)
    requires |s| > 0 && DecodeUtf8(s).Char?
    ensures DecodeUtf8(s).n <= |s|
    ensures !IsScalar(DecodeUtf8(s).cp) <==> DecodeUtf8(s).n == 3 && s[0] == 0xED && s[1] >= 0xA0
  {
    hide DecodeUtf8;
    Utf8Sequence(s);
  }

  /** The bytes that a surrogate half would have in UTF-8. */
  predicate IsSurrogateAt(s: seq<byte>) {
    |s| >= 3 && s[0] == 0xED && 0xA0 <= s[1] < 0xC0 && 0x80 <= s[2] < 0xC0
  }

  /** A charset has a code for the byte that is no scalar value. */
  predicate GivesNoScalar(p: CharsetCode.Program, b: byte) {
    var o := CharsetCode.Eval(p, true, b);
    o.Code? && !IsScalar(o.code)
  }

  /** Which decoders give a code that is no scalar value, and where. */
  lemma DecodesNoScalar(c: Codec, s: seq<byte>)
    requires |s| > 0
    ensures Decode(c, s).Char? && !IsScalar(Decode(c, s).cp) <==>
              || (c.Utf8? && IsSurrogateAt(s))
              || (c.SingleByte? && GivesNoScalar(c.toUni, s[0]))
  {
    hide IsScalar, IsSurrogateAt, CharsetCode.Eval;
    if IsUtf(c) {
      DecodesSurrogate(c, s);
    }
  }

  /** A decoder gives a code that is no scalar value exactly when it is that of UTF-8 at such bytes. */
  lemma DecodesSurrogate(c: Codec, s: seq<byte>)
    requires |s| > 0 && IsUtf(c)
    ensures Decode(c, s).Char? && !IsScalar(Decode(c, s).cp) <==> c.Utf8? && IsSurrogateAt(s)
  {
    hide DecodeUtf16, DecodeUtf32, DecodeUtf8;
    match c
    case Utf8 =>
      if DecodeUtf8(s).Char? {
        Utf8Surrogates(s);
        Utf8Sequence(s);
      }
      if IsSurrogateAt(s) {
        ReadThree(s, 0xD, s[1] - 0x80, s[2] - 0x80);
      }
    case Utf16(_) => WideDecodersGiveScalars(c, s);
    case Utf32(_) => WideDecodersGiveScalars(c, s);
  }

  /** The decoders of wide units never do. */
  lemma WideDecodersGiveScalars(c: Codec, s: seq<byte>)
    requires |s| > 0 && (c.Utf16? || c.Utf32?)
    ensures Decode(c, s).Char? ==> IsScalar(Decode(c, s).cp)
  {
  }

  // ---- where an illegal sequence is said to be wrong

  /** `p` is the beginning of a character that the UTF-8 decoder accepts. */
  ghost predicate Begins(p: seq<byte>) {
    exists t: seq<byte> :: IsCharacterFrom(p, t)
  }

  predicate IsCharacterFrom(p: seq<byte>, t: seq<byte>) {
    p <= t && t != [] && DecodeUtf8(t).Char? && |p| <= DecodeUtf8(t).n
  }

  /** The first byte of `s` that cannot stand where it stands. */
  ghost predicate IsFirstBad(s: seq<byte>, at: nat) {
    at < |s| && Begins(s[..at]) && !Begins(s[..at + 1])
  }

  lemma NothingBegins()
    ensures Begins([])
  {
    assert IsCharacterFrom([], [0x41]);
  }

  /** What cannot be the first byte of a character. */
  lemma BadStart(b: byte)
    requires 0x80 <= b < 0xC2 || b >= 0xF5
    ensures !Begins([b])
  {
    hide DecodeUtf8;
    if Begins([b]) {
      var t: seq<byte> :| IsCharacterFrom([b], t);
      assert t[0] == [b][0];
      Utf8Sequence(t);
      assert false;
    }
  }

  /** What cannot follow the first bytes of a character. */
  lemma BadNext(p: seq<byte>)
    requires 2 <= |p| <= 4 && p[0] >= 0xC2
    requires var b := p[|p| - 1];
             || !(0x80 <= b < 0xC0) || (|p| == 2 && p[0] == 0xE0 && b < 0xA0)
             || (|p| == 2 && p[0] == 0xF0 && b < 0x90) || (|p| == 2 && p[0] == 0xF4 && b >= 0x90)
    ensures !Begins(p)
  {
    hide DecodeUtf8;
    if Begins(p) {
      var t: seq<byte> :| IsCharacterFrom(p, t);
      assert t[0] == p[0] && t[|p| - 1] == p[|p| - 1];
      Utf8Sequence(t);
      assert false;
    }
  }

  /** The first two bytes of a character, and any continuation bytes after them. */
  lemma GoodStart(s: seq<byte>, n: nat)
    requires 1 <= n <= 3 && |s| >= n && 0xC2 <= s[0] < 0xF5
    requires (n >= 2 ==> s[0] >= 0xE0) && (n >= 3 ==> s[0] >= 0xF0)
    requires forall i :: 1 <= i < n ==> 0x80 <= s[i] < 0xC0
    requires n >= 2 ==>
               (s[0] == 0xE0 ==> s[1] >= 0xA0) && (s[0] == 0xF0 ==> s[1] >= 0x90) && (s[0] == 0xF4 ==> s[1] < 0x90)
    ensures Begins(s[..n])
  {
    hide DecodeUtf8, Digits;
    var b1: byte := if n >= 2 then s[1] else if s[0] == 0xE0 then 0xA0 else if s[0] == 0xF0 then 0x90 else 0x80;
    var b2: byte := if n >= 3 then s[2] else 0x80;
    if s[0] < 0xE0 {
      var t := [s[0], b1];
      ReadTwo(t, s[0] - 0xC0, b1 - 0x80);
      assert IsCharacterFrom(s[..n], t);
    } else if s[0] < 0xF0 {
      var t := [s[0], b1, b2];
      ReadThree(t, s[0] - 0xE0, b1 - 0x80, b2 - 0x80);
      assert IsCharacterFrom(s[..n], t);
    } else {
      var t := [s[0], b1, b2, 0x80];
      ReadFour(t, s[0] - 0xF0, b1 - 0x80, b2 - 0x80, 0);
      assert IsCharacterFrom(s[..n], t);
    }
  }

  /** Where the decoder says an illegal sequence goes wrong, and why. */
  lemma Utf8Illegal(s: seq<byte>)
    requires |s| > 0 && DecodeUtf8(s).Illegal?
    ensures var at := DecodeUtf8(s).at;
            && at <= 3 && (at == 0 ==> s[0] >= 0xF5) && (at > 0 ==> 0x80 <= s[0] < 0xF5)
            && (0xC2 <= s[0] < 0xF5 ==>
                  && at < |s| && (at >= 2 ==> s[0] >= 0xE0) && (at >= 3 ==> s[0] >= 0xF0)
                  && (forall i :: 1 <= i < at ==> 0x80 <= s[i] < 0xC0)
                  && (at >= 2 ==>
                        && (s[0] == 0xE0 ==> s[1] >= 0xA0) && (s[0] == 0xF0 ==> s[1] >= 0x90)
                        && (s[0] == 0xF4 ==> s[1] < 0x90))
                  && (|| !(0x80 <= s[at] < 0xC0) || (at == 1 && s[0] == 0xE0 && s[at] < 0xA0)
                      || (at == 1 && s[0] == 0xF0 && s[at] < 0x90) || (at == 1 && s[0] == 0xF4 && s[at] >= 0x90)))
  {
    hide Digits, Low;
  }

  /**
   The offset that the UTF-8 decoder gives is that of the first byte that cannot stand there,
   except for bytes from 80 to C1 at the start of a character.
   */
  lemma IllegalOffset(s: seq<byte>)
    requires |s| > 0 && DecodeUtf8(s).Illegal?
    ensures IsFirstBad(s, DecodeUtf8(s).at) <==> !(0x80 <= s[0] < 0xC2)
  {
    hide DecodeUtf8, Begins;
    var at := DecodeUtf8(s).at;
    Utf8Illegal(s);
    if 0x80 <= s[0] < 0xC2 {
      BadStart(s[0]);
      assert at == 1 by { FirstOfIllegal(s); }
      assert s[..1] == [s[0]];
    } else if at == 0 {
      NothingBegins();
      BadStart(s[0]);
      assert s[..0] == [] && s[..1] == [s[0]];
    } else {
      GoodStart(s, at);
      assert s[..at + 1][0] == s[0] && s[..at + 1][at] == s[at];
      BadNext(s[..at + 1]);
    }
  }

  lemma FirstOfIllegal(s: seq<byte>)
    requires |s| > 0 && 0x80 <= s[0] < 0xC2
    ensures DecodeUtf8(s) == Illegal(1)
  {
  }

  /** The byte at fault is the first one, but the offset is 1. */
  lemma WrongOffset()
    ensures DecodeUtf8([0x80]) == Illegal(1) && IsFirstBad([0x80], 0) && !IsFirstBad([0x80], 1)
  {
    NothingBegins();
    BadStart(0x80);
    var s: seq<byte> := [0x80];
    assert s[..0] == [] && s[..1] == [0x80];
  }
}
