/** Where the fields of an image and of an entry stand, and an image with all its bytes written out. */
module TlvLayout {
  import opened Bytes
  import opened Crc32
  import opened Crc32Values
  import opened TlvFormat
  import opened TlvTable

  lemma Sizes()
    ensures HEADER == 8 + 4 + 4 && ALIGNMENT == 8 && INT32_MAX == 2_147_483_647 && MAX_LIMIT == INT32_MAX - 15
    ensures Align(0) == 0 && Align(1) == 8 && Align(8) == 8 && Align(9) == 16
  {
  }

  /** A number of 32 bits at a position, the most significant byte first. */
  function NumberAt(b: seq<byte>, i: nat): int
    requires i + 4 <= |b|
  {
    b[i] as int * 0x100_0000 + b[i + 1] as int * 0x1_0000 + b[i + 2] as int * 0x100 + b[i + 3] as int
  }

  lemma NumberStands(b: seq<byte>, i: nat, n: nat)
    requires n < U32 && i + 4 <= |b| && b[i..i + 4] == Be32(n)
    ensures NumberAt(b, i) == n
  {
    hide Be32;
    var s := b[i..i + 4];
    assert s[0] == b[i] && s[1] == b[i + 1] && s[2] == b[i + 2] && s[3] == b[i + 3];
    Be32Layout(n);
  }

  /** Eight bytes of magic, the checksum, the size of the entries, and the entries. */
  lemma ImageLayout(magic: seq<byte>, body: seq<byte>)
    requires |magic| == 8 && |body| < U32
    ensures var b := Image(magic, body);
            && |b| == 16 + |body| && b[..8] == magic && b[16..] == body && NumberAt(b, 12) == |body|
            && NumberAt(b, 8) == Checksum(b[..8] + [0, 0, 0, 0] + b[12..])
  {
    hide Be32, Checksum, NumberAt;
    var n := Be32(|body|);
    var c := Checksum(magic + Zeros(4) + n + body);
    HeaderParts(magic, Be32(c), n, body);
    var b := Image(magic, body);
    NumberStands(b, 12, |body|);
    NumberStands(b, 8, c);
    assert Zeros(4) == [0, 0, 0, 0];
    assert b[12..] == n + body;
    ConcatAssoc(magic + [0, 0, 0, 0], n, body);
  }

  /** The tag, the length and the value of an entry, and zeros up to the next multiple of 8. */
  lemma EntryLayout(tag: nat, val: seq<byte>)
    requires tag < U32 && |val| < U32
    ensures var b := EntryBytes(NewEntry(tag, val));
            && NumberAt(b, 0) == tag && NumberAt(b, 4) == |val| && |b| >= 8 + |val| && b[8..8 + |val|] == val
            && |b| % 8 == 0 && |b| < 8 + |val| + 8 && forall i :: 8 + |val| <= i < |b| ==> b[i] == 0
  {
    hide Be32, Align, NumberAt;
    var e := NewEntry(tag, val);
    var b := EntryBytes(e);
    FirstEntry(e, []);
    Fields(Be32(tag), Be32(|val|), val, e.pad, []);
    NumberStands(b, 0, tag);
    NumberStands(b, 4, |val|);
    AlignOfEntry(e);
    assert forall i :: 8 + |val| <= i < |b| ==> b[i] == e.pad[i - 8 - |val|];
  }

  lemma AlignOfEntry(e: Entry)
    requires EntryWf(e)
    ensures (8 + Align(|e.val|)) % 8 == 0 && Align(|e.val|) < |e.val| + 8
  {
  }

  /** Entry 258 with a value of two bytes. */
  lemma OneEntry()
    ensures EntryBytes(NewEntry(258, [0xAA, 0xBB])) == [0, 0, 1, 2, 0, 0, 0, 2, 0xAA, 0xBB, 0, 0, 0, 0, 0, 0]
  {
    assert Be32(258) == [0, 0, 1, 2] && Be32(2) == [0, 0, 0, 2];
    assert Zeros(6) == [0, 0, 0, 0, 0, 0];
  }

  lemma Header0()
    ensures Bit8(Xor(0xFFFF_FFFF, 0x4E)) == 0xBC99_7CE5 && Bit8(Xor(0xBC99_7CE5, 0x44)) == 0xA16D_0A02
    ensures Bit8(Xor(0xA16D_0A02, 0x4D)) == 0xE6C2_310B && Bit8(Xor(0xE6C2_310B, 0x54)) == 0xFB32_8E54
  {
  }

  lemma Header1()
    ensures Bit8(Xor(0xFB32_8E54, 0x41)) == 0x6D26_D665 && Bit8(Xor(0x6D26_D665, 0x42)) == 0xA567_93BD
    ensures Bit8(Xor(0xA567_93BD, 0x4C)) == 0xCA1F_A519 && Bit8(Xor(0xCA1F_A519, 0x45)) == 0x6217_027A
  {
  }

  lemma Header2()
    ensures Bit8(Xor(0x6217_027A, 0x00)) == 0xB0B2_8F20 && Bit8(Xor(0xB0B2_8F20, 0x00)) == 0x3BDE_9247
    ensures Bit8(Xor(0x3BDE_9247, 0x00)) == 0xE883_0AA1 && Bit8(Xor(0xE883_0AA1, 0x00)) == 0xA139_1074
  {
  }

  lemma Header3()
    ensures Bit8(Xor(0xA139_1074, 0x00)) == 0x57C9_8C35 && Bit8(Xor(0x57C9_8C35, 0x00)) == 0x56E4_0DAF
    ensures Bit8(Xor(0x56E4_0DAF, 0x00)) == 0x463F_5A74 && Bit8(Xor(0x463F_5A74, 0x00)) == 0x572E_8A7F
  {
  }

  lemma HeaderWords()
    ensures Word(0x4E) == 0x4E && Word(0x44) == 0x44 && Word(0x4D) == 0x4D && Word(0x54) == 0x54 && Word(0) == 0
    ensures Word(0x41) == 0x41 && Word(0x42) == 0x42 && Word(0x4C) == 0x4C && Word(0x45) == 0x45
  {
  }

  /** A magic number, as its eight bytes. */
  const MAGIC: seq<byte> := [0x4E, 0x44, 0x4D, 0x54, 0x41, 0x42, 0x4C, 0x45]

  lemma MagicRemainder()
    ensures Divide(ALL_ONES, MAGIC) == 0x6217_027A
  {
    hide Bit8, Xor, Word, Divide;
    Crc32Values.Nothing();
    HeaderWords();
    var s: seq<byte> := [0x4E, 0x44, 0x4D, 0x54];
    assert s == [] + s && MAGIC == s + [0x41, 0x42, 0x4C, 0x45];
    Header0();
    Append4([], s, 0xFFFF_FFFF, 0x4E, 0xBC99_7CE5, 0x44, 0xA16D_0A02, 0x4D, 0xE6C2_310B, 0x54, 0xFB32_8E54);
    Header1();
    Append4(s, [0x41, 0x42, 0x4C, 0x45], 0xFB32_8E54, 0x41, 0x6D26_D665, 0x42, 0xA567_93BD, 0x4C, 0xCA1F_A519, 0x45,
            0x6217_027A);
  }

  lemma HeaderChecksum()
    ensures Checksum(MAGIC + [0, 0, 0, 0] + [0, 0, 0, 0]) == 0xA8D1_7580
  {
    hide Bit8, Xor, Word, Divide;
    MagicRemainder();
    HeaderWords();
    var z: seq<byte> := [0, 0, 0, 0];
    Header2();
    Append4(MAGIC, z, 0x6217_027A, 0, 0xB0B2_8F20, 0, 0x3BDE_9247, 0, 0xE883_0AA1, 0, 0xA139_1074);
    Header3();
    Append4(MAGIC + z, z, 0xA139_1074, 0, 0x57C9_8C35, 0, 0x56E4_0DAF, 0, 0x463F_5A74, 0, 0x572E_8A7F);
    DigestIsComplement(0x572E_8A7F);
  }

  /** The whole image of an empty table. */
  lemma EmptyTable()
    ensures MAGIC == Ascii("NDMTABLE") && Image(MAGIC, []) == MAGIC + [0xA8, 0xD1, 0x75, 0x80, 0, 0, 0, 0]
  {
    hide Checksum;
    HeaderChecksum();
    assert Zeros(4) == [0, 0, 0, 0] == Be32(0) && Be32(0xA8D1_7580) == [0xA8, 0xD1, 0x75, 0x80];
    ConcatEmpty(MAGIC + Zeros(4) + Be32(0));
  }
}
