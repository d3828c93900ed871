/** The bytes of each encoding, as weighted sums: what the encoders write and the decoders read. */
module ConvLayout {
  import opened Bytes
  import opened ConvCodecs
  import opened Conv
  import CharsetCode
  import JsonValue

  /** The bits of a byte behind its mark. */
  function Bits(b: byte, mark: nat): int {
    b as int - mark
  }

  /** Section 3 of RFC 3629: how many bytes there are, their ranges, and the bits in them. */
  lemma Utf8Bytes(cp: nat)
    requires cp <= 0x10_FFFF
    ensures var b := EncodeUtf8(cp);
            if cp <= 0x7F then b == [cp]
            else if cp <= 0x7FF then
              |b| == 2 && 0xC2 <= b[0] <= 0xDF && 0x80 <= b[1] <= 0xBF
                && Bits(b[0], 0xC0) * 0x40 + Bits(b[1], 0x80) == cp
            else if cp <= 0xFFFF then
              && |b| == 3 && 0xE0 <= b[0] <= 0xEF && 0x80 <= b[1] <= 0xBF && 0x80 <= b[2] <= 0xBF
              && Bits(b[0], 0xE0) * 0x1000 + Bits(b[1], 0x80) * 0x40 + Bits(b[2], 0x80) == cp
            else
              && |b| == 4 && 0xF0 <= b[0] <= 0xF4 && 0x80 <= b[1] <= 0xBF && 0x80 <= b[2] <= 0xBF
              && 0x80 <= b[3] <= 0xBF
              && Bits(b[0], 0xF0) * 0x4_0000 + Bits(b[1], 0x80) * 0x1000 + Bits(b[2], 0x80) * 0x40 + Bits(b[3], 0x80)
                 == cp
  {
    hide EncodeUtf8;
    var a, b, c, d := SplitDigits(cp);
    Utf8Layout(a, b, c, d);
    if cp <= 0x7F {
      Utf8Ascii(cp);
    }
  }

  /** Section 2.1 of RFC 2781: one 16-bit unit, or two of them with ten bits each. */
  lemma Utf16Units(big: bool, cp: nat)
    requires cp <= 0x10_FFFF
    ensures var b, h := EncodeUtf16(big, cp), if big then 0 else 1;
            if cp <= 0xFFFF then |b| == 2 && b[h] as int * 0x100 + b[1 - h] as int == cp
            else
              && |b| == 4
              && (var w1, w2 := b[h] as int * 0x100 + b[1 - h] as int, b[2 + h] as int * 0x100 + b[3 - h] as int;
                  && 0xD800 <= w1 <= 0xDBFF && 0xDC00 <= w2 <= 0xDFFF
                  && (w1 - 0xD800) * 0x400 + (w2 - 0xDC00) == cp - 0x1_0000)
  {
  }

  /** All 32 bits, from the most significant byte down or the other way round. */
  lemma Utf32Bytes(big: bool, cp: nat)
    requires cp <= 0x10_FFFF
    ensures var b := EncodeUtf32(big, cp);
            cp == if big then b[0] as int * 0x100_0000 + b[1] as int * 0x1_0000 + b[2] as int * 0x100 + b[3] as int
                  else b[3] as int * 0x100_0000 + b[2] as int * 0x1_0000 + b[1] as int * 0x100 + b[0] as int
  {
    hide Be32;
    Be32Layout(cp);
  }

  /** U+1F600 in every encoding. */
  lemma OneCharacter()
    ensures Encode(Utf8, 0x1_F600) == [0xF0, 0x9F, 0x98, 0x80]
    ensures Encode(Utf16(true), 0x1_F600) == [0xD8, 0x3D, 0xDE, 0x00]
    ensures Encode(Utf16(false), 0x1_F600) == [0x3D, 0xD8, 0x00, 0xDE]
    ensures Encode(Utf32(true), 0x1_F600) == [0x00, 0x01, 0xF6, 0x00]
    ensures Encode(Utf32(false), 0x1_F600) == [0x00, 0xF6, 0x01, 0x00]
  {
  }

  lemma LastDigit(cp: nat, high: nat, low: nat)
    requires cp == high * 0x40 + low && low < 0x40
    ensures cp / 0x40 == high && cp % 0x40 == low
  {
  }

  lemma DigitsAre(cp: nat, w: nat, x: nat, y: nat, z: nat)
    requires x < 0x40 && y < 0x40 && z < 0x40 && cp == ((w * 0x40 + x) * 0x40 + y) * 0x40 + z
    ensures cp % 0x40 == z && cp / 0x40 % 0x40 == y && cp / 0x1000 % 0x40 == x && cp / 0x4_0000 == w
    ensures cp / 0x40 == (w * 0x40 + x) * 0x40 + y && cp / 0x1000 == w * 0x40 + x
  {
    LastDigit(cp, (w * 0x40 + x) * 0x40 + y, z);
    LastDigit(cp / 0x40, w * 0x40 + x, y);
    LastDigit(cp / 0x40 / 0x40, w, x);
    assert cp / 0x1000 == cp / 0x40 / 0x40 && cp / 0x4_0000 == cp / 0x40 / 0x40 / 0x40;
  }

  /** The JSON parser has an encoder of its own, which is the same. */
  lemma JsonUtf8(cp: nat)
    requires cp <= 0x10_FFFF
    ensures JsonValue.Utf8(cp) == EncodeUtf8(cp)
  {
    hide EncodeUtf8;
    Utf8Bytes(cp);
    var b := EncodeUtf8(cp);
    if cp <= 0x7F {
    } else if cp <= 0x7FF {
      DigitsAre(cp, 0, 0, Bits(b[0], 0xC0), Bits(b[1], 0x80));
    } else if cp <= 0xFFFF {
      DigitsAre(cp, 0, Bits(b[0], 0xE0), Bits(b[1], 0x80), Bits(b[2], 0x80));
    } else {
      DigitsAre(cp, Bits(b[0], 0xF0), Bits(b[1], 0x80), Bits(b[2], 0x80), Bits(b[3], 0x80));
    }
  }

  /** Where the other decoders say that input is illegal: at its start, or at the second unit of a pair. */
  lemma OtherOffsets(c: Codec, s: seq<byte>)
    requires s != [] && !c.Utf8? && Decode(c, s).Illegal?
    ensures Decode(c, s).at == if c.Utf16? && |s| >= 2 && 0xD8 <= (if c.big then s[0] else s[1]) <= 0xDB then 2 else 0
  {
  }

  // ---- two calls

  /** A call that has room for a character goes on behind it. */
  lemma OneOn(from: Codec, to: Codec, s: seq<byte>, room: nat, cp: nat, n: nat, out: seq<byte>, r: Result)
    requires s != [] && n <= |s| && cp <= 0x10_FFFF && Decode(from, s) == Char(cp, n) && IsScalar(cp)
    requires Encode(to, cp) == out && 0 < |out| <= room && Run(from, to, s[n..], room - |out|) == r
    ensures Run(from, to, s, room) == Result(n + r.consumed, out + r.output, r.replaced, r.stop)
  {
    hide Decode, Encode, IsScalar;
  }

  lemma Characters()
    ensures Decode(Utf8, [0x41, 0xC3, 0xA9, 0x42]) == Char(0x41, 1) && Decode(Utf8, [0xC3, 0xA9, 0x42]) == Char(0xE9, 2)
    ensures Encode(Utf16(true), 0x41) == [0x00, 0x41] && Encode(Utf16(true), 0xE9) == [0x00, 0xE9]
    ensures IsScalar(0x41) && IsScalar(0xE9)
  {
  }

  lemma NoRoomLeft()
    ensures Run(Utf8, Utf16(true), [0x42], 0) == Result(0, [], 0, NoRoom)
  {
  }

  /** "A" and U+00E9 to UTF-16, with room for no more. */
  lemma TwoCharacters()
    ensures Run(Utf8, Utf16(true), [0x41, 0xC3, 0xA9, 0x42], 4) == Result(3, [0x00, 0x41, 0x00, 0xE9], 0, NoRoom)
  {
    hide Run, Decode, Encode, IsScalar;
    Characters();
    NoRoomLeft();
    var s: seq<byte> := [0x41, 0xC3, 0xA9, 0x42];
    assert s[1..] == [0xC3, 0xA9, 0x42] && s[1..][2..] == [0x42];
    OneOn(Utf8, Utf16(true), s[1..], 2, 0xE9, 2, [0x00, 0xE9], Result(0, [], 0, NoRoom));
    OneOn(Utf8, Utf16(true), s, 4, 0x41, 1, [0x00, 0x41], Result(2, [0x00, 0xE9], 0, NoRoom));
  }

  /** What a charset does not have is replaced by a question mark, and counted. */
  lemma OneReplaced(p: CharsetCode.Program)
    ensures Run(Utf8, SingleByte(p, CharsetCode.Program([], [], true)), [0x41], 1) == Result(1, [0x3F], 1, Finished)
  {
    var to := SingleByte(p, CharsetCode.Program([], [], true));
    var s: seq<byte> := [0x41];
    assert Encode(to, 0x41) == [] && Output(to, 0x41) == [0x3F];
    assert s[1..] == [] && Run(Utf8, to, [], 0) == Result(0, [], 0, Finished);
  }
}
