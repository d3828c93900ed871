/**
 Values of CRC-32: the check value, which is a test of the library, and the remainder that a
 message leaves when its checksum follows it.
 */
module Crc32Values {
  import opened Bytes
  import opened Crc32

  /** The remainder after one more byte. */
  lemma Append1(s: seq<byte>, d: bv32, b: byte, w: bv32, e: bv32)
    requires Divide(ALL_ONES, s) == d && Word(b) == w && Bit8(Xor(d, w)) == e
    ensures Divide(ALL_ONES, s + [b]) == e
  {
    hide Bit8, Xor, Word;
    DivideConcat(ALL_ONES, s, [b]);
    assert [b][1..] == [];
  }

  /** The remainder after four more bytes. */
  lemma Append4(s: seq<byte>, t: seq<byte>, d: bv32, w1: bv32, e1: bv32, w2: bv32, e2: bv32, w3: bv32, e3: bv32,
                w4: bv32, e4: bv32)
    requires |t| == 4 && Divide(ALL_ONES, s) == d
    requires Word(t[0]) == w1 && Word(t[1]) == w2 && Word(t[2]) == w3 && Word(t[3]) == w4
    requires Bit8(Xor(d, w1)) == e1 && Bit8(Xor(e1, w2)) == e2 && Bit8(Xor(e2, w3)) == e3 && Bit8(Xor(e3, w4)) == e4
    ensures Divide(ALL_ONES, s + t) == e4
  {
    hide Bit8, Xor, Word, Divide;
    Append1(s, d, t[0], w1, e1);
    Append1(s + [t[0]], e1, t[1], w2, e2);
    Append1(s + [t[0]] + [t[1]], e2, t[2], w3, e3);
    Append1(s + [t[0]] + [t[1]] + [t[2]], e3, t[3], w4, e4);
    assert s + t == s + [t[0]] + [t[1]] + [t[2]] + [t[3]];
  }

  lemma Digits0()
    ensures Bit8(Xor(0xFFFF_FFFF, 0x31)) == 0x7C23_1048 && Bit8(Xor(0x7C23_1048, 0x32)) == 0xB0AC_BB32
    ensures Bit8(Xor(0xB0AC_BB32, 0x33)) == 0x77B7_9C2D && Bit8(Xor(0x77B7_9C2D, 0x34)) == 0x641C_1F5C
  {
  }

  lemma Digits1()
    ensures Bit8(Xor(0x641C_1F5C, 0x35)) == 0x340A_C5E3 && Bit8(Xor(0x340A_C5E3, 0x36)) == 0xF68D_2C9E
    ensures Bit8(Xor(0xF68D_2C9E, 0x37)) == 0xAFFC_9660 && Bit8(Xor(0xAFFC_9660, 0x38)) == 0x651F_2550
  {
  }

  lemma Digits2()
    ensures Bit8(Xor(0x651F_2550, 0x39)) == 0x340B_C6D9
  {
  }

  lemma DigitWords()
    ensures Word(0x31) == 0x31 && Word(0x32) == 0x32 && Word(0x33) == 0x33 && Word(0x34) == 0x34 && Word(0x35) == 0x35
    ensures Word(0x36) == 0x36 && Word(0x37) == 0x37 && Word(0x38) == 0x38 && Word(0x39) == 0x39
  {
  }

  /** The digest of the nine digits that `tests/test_crc32.c` expects. */
  lemma CheckValue()
    ensures Checksum(Ascii("123456789")) == 0xCBF4_3926
  {
    hide Bit8, Xor, Word, Divide;
    Nothing();
    DigitWords();
    var s: seq<byte> := [];
    Digits0();
    Append4(s, [0x31, 0x32, 0x33, 0x34], 0xFFFF_FFFF, 0x31, 0x7C23_1048, 0x32, 0xB0AC_BB32, 0x33, 0x77B7_9C2D, 0x34,
      0x641C_1F5C);
    s := s + [0x31, 0x32, 0x33, 0x34];
    Digits1();
    Append4(s, [0x35, 0x36, 0x37, 0x38], 0x641C_1F5C, 0x35, 0x340A_C5E3, 0x36, 0xF68D_2C9E, 0x37, 0xAFFC_9660, 0x38,
      0x651F_2550);
    s := s + [0x35, 0x36, 0x37, 0x38];
    Digits2();
    Append1(s, 0x651F_2550, 0x39, 0x39, 0x340B_C6D9);
    s := s + [0x39];
    assert s == Ascii("123456789");
  }

  /** Of no message at all. */
  lemma Nothing()
    ensures Divide(ALL_ONES, []) == ALL_ONES && Checksum([]) == 0
  {
  }

  // ---- a message and its checksum

  function ByteOf(x: bv32): byte {
    Index(x) as byte
  }

  /** The four bytes of a word, the lowest one first. */
  function LowFirst(w: bv32): (b: seq<byte>)
    ensures |b| == 4
  {
    [ByteOf(w), ByteOf(Down8(w)), ByteOf(Down8(Down8(w))), ByteOf(Down8(Down8(Down8(w))))]
  }

  lemma ThereAndBack(x: bv8)
    ensures (x as byte) as bv8 == x
  {
  }

  lemma WordOfBits(b: byte, x: bv8)
    requires b as bv8 == x
    ensures Word(b) == x as bv32
  {
  }

  lemma WordOfByte(x: bv32)
    ensures Word(ByteOf(x)) == Low(x)
  {
    hide Word, Index;
    ThereAndBack(Index(x));
    WordOfBits(ByteOf(x), Index(x));
  }

  lemma LowIsMasked(x: bv32)
    ensures Low(x) == x & 0xFF
  {
  }

  lemma HighIsClear(e: bv32)
    ensures Clear8(High(e)) && Down8(High(e)) == Down8(e)
  {
  }

  lemma OnlyLowBits(t: bv32, e: bv32, x: bv32)
    requires x == (!e) & 0xFF
    ensures Xor(Xor(t, e), x) == Xor(Xor(t, 0xFF), High(e))
  {
  }

  /** A byte that is the complement of the lowest one leaves nothing of it. */
  lemma Cancels(t: bv32, e: bv32, c: bv32)
    requires Low(c) == Low(!e)
    ensures Bit8(Xor(Xor(t, e), Word(ByteOf(c)))) == Xor(Bit8(Xor(t, 0xFF)), Down8(e))
  {
    hide Bit8, Xor, Word, ByteOf, Low, High, Down8, Clear8;
    WordOfByte(c);
    LowIsMasked(!e);
    OnlyLowBits(t, e, Low(c));
    HighIsClear(e);
    Bit8Below(Xor(t, 0xFF), High(e));
  }

  lemma Complement(d: bv32)
    ensures Xor(d, ALL_ONES) == !d && Xor(0, d) == d
  {
  }

  lemma Complements(d: bv32)
    ensures Low(Down8(!d)) == Low(!Down8(d))
    ensures Low(Down8(Down8(!d))) == Low(!Down8(Down8(d)))
    ensures Low(Down8(Down8(Down8(!d)))) == Low(!Down8(Down8(Down8(d))))
    ensures Down8(Down8(Down8(Down8(d)))) == 0
  {
  }

  lemma FourRemainders()
    ensures Bit8(Xor(0, 0xFF)) == 0x2D02_EF8D
    ensures Bit8(Xor(0x2D02_EF8D, 0xFF)) == 0xBE26_12FF
    ensures Bit8(Xor(0xBE26_12FF, 0xFF)) == 0x00BE_2612
    ensures Bit8(Xor(0x00BE_2612, 0xFF)) == 0xDEBB_20E3
    ensures Xor(0xDEBB_20E3, 0) == 0xDEBB_20E3
  {
  }

  /**
   The residue: a message that its checksum follows, low-order byte first, leaves one remainder
   whatever it says.
   */
  lemma Residue(m: seq<byte>) returns (w: bv32)
    ensures Checksum(m) == w as nat && Divide(ALL_ONES, m + LowFirst(w)) == 0xDEBB_20E3
  {
    hide Bit8, Xor, Word, ByteOf, Low, Down8, Divide;
    var d := Divide(ALL_ONES, m);
    var d1, d2, d3 := Down8(d), Down8(Down8(d)), Down8(Down8(Down8(d)));
    w := Xor(d, ALL_ONES);
    DigestIsComplement(d);
    Complement(d);
    Complements(d);
    FourRemainders();
    Cancels(0, d, w);
    Cancels(0x2D02_EF8D, d1, Down8(w));
    Cancels(0xBE26_12FF, d2, Down8(Down8(w)));
    Cancels(0x00BE_2612, d3, Down8(Down8(Down8(w))));
    var b := LowFirst(w);
    Append4(m, b, d, Word(b[0]), Xor(0x2D02_EF8D, d1), Word(b[1]), Xor(0xBE26_12FF, d2), Word(b[2]),
      Xor(0x00BE_2612, d3),
            Word(b[3]), 0xDEBB_20E3);
  }

  lemma DigestIsComplement(d: bv32)
    ensures DigestOf(d) == Xor(d, ALL_ONES) as nat
  {
  }
}
