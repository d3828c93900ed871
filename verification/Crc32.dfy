/**
 CRC-32 as section 8 of RFC 1952 computes it: a table of 256 words, one look-up for each
 byte, and the bit-by-bit division that the table stands for.
 */
module Crc32 {
  import opened Bytes

  const ALL_ONES: bv32 := 0xFFFF_FFFF

  // ---- the division, one bit at a time

  predicate Odd(x: bv32) {
    x & 1 == 1
  }

  function Xor(x: bv32, y: bv32): bv32 {
    x ^ y
  }

  function Down1(y: bv32): bv32 {
    y >> 1
  }

  /** One step of dividing by the reflected polynomial. */
  function Bit(c: bv32): bv32 {
    if c & 1 == 1 then (c >> 1) ^ 0xEDB8_8320 else c >> 1
  }

  function Bit2(c: bv32): bv32 {
    Bit(Bit(c))
  }

  function Bit4(c: bv32): bv32 {
    Bit2(Bit2(c))
  }

  function Bit8(c: bv32): bv32 {
    Bit4(Bit4(c))
  }

  function Word(b: byte): bv32 {
    (b as bv8) as bv32
  }

  /** The remainder after the bits of `s`, low bit of each byte first. */
  function Divide(d: bv32, s: seq<byte>): (r: bv32)
    decreases |s|
  {
    if s == [] then d else Divide(Bit8(Xor(d, Word(s[0]))), s[1..])
  }

  // ---- the table, in rows of eight words

  function Pick(k: bv8, w0: bv32, w1: bv32, w2: bv32, w3: bv32, w4: bv32, w5: bv32, w6: bv32, w7: bv32): bv32 {
    if k == 0 then w0 else if k == 1 then w1 else if k == 2 then w2 else if k == 3 then w3
    else if k == 4 then w4 else if k == 5 then w5 else if k == 6 then w6 else w7
  }

  function Quarter0(r: bv8, k: bv8): bv32 {
    if r == 0 then
      Pick(k, 0x00000000, 0x77073096, 0xEE0E612C, 0x990951BA, 0x076DC419, 0x706AF48F, 0xE963A535, 0x9E6495A3)
    else if r == 1 then
      Pick(k, 0x0EDB8832, 0x79DCB8A4, 0xE0D5E91E, 0x97D2D988, 0x09B64C2B, 0x7EB17CBD, 0xE7B82D07, 0x90BF1D91)
    else if r == 2 then
      Pick(k, 0x1DB71064, 0x6AB020F2, 0xF3B97148, 0x84BE41DE, 0x1ADAD47D, 0x6DDDE4EB, 0xF4D4B551, 0x83D385C7)
    else if r == 3 then
      Pick(k, 0x136C9856, 0x646BA8C0, 0xFD62F97A, 0x8A65C9EC, 0x14015C4F, 0x63066CD9, 0xFA0F3D63, 0x8D080DF5)
    else if r == 4 then
      Pick(k, 0x3B6E20C8, 0x4C69105E, 0xD56041E4, 0xA2677172, 0x3C03E4D1, 0x4B04D447, 0xD20D85FD, 0xA50AB56B)
    else if r == 5 then
      Pick(k, 0x35B5A8FA, 0x42B2986C, 0xDBBBC9D6, 0xACBCF940, 0x32D86CE3, 0x45DF5C75, 0xDCD60DCF, 0xABD13D59)
    else if r == 6 then
      Pick(k, 0x26D930AC, 0x51DE003A, 0xC8D75180, 0xBFD06116, 0x21B4F4B5, 0x56B3C423, 0xCFBA9599, 0xB8BDA50F)
    else Pick(k, 0x2802B89E, 0x5F058808, 0xC60CD9B2, 0xB10BE924, 0x2F6F7C87, 0x58684C11, 0xC1611DAB, 0xB6662D3D)
  }

  function Quarter1(r: bv8, k: bv8): bv32 {
    if r == 8 then
      Pick(k, 0x76DC4190, 0x01DB7106, 0x98D220BC, 0xEFD5102A, 0x71B18589, 0x06B6B51F, 0x9FBFE4A5, 0xE8B8D433)
    else if r == 9 then
      Pick(k, 0x7807C9A2, 0x0F00F934, 0x9609A88E, 0xE10E9818, 0x7F6A0DBB, 0x086D3D2D, 0x91646C97, 0xE6635C01)
    else if r == 10 then
      Pick(k, 0x6B6B51F4, 0x1C6C6162, 0x856530D8, 0xF262004E, 0x6C0695ED, 0x1B01A57B, 0x8208F4C1, 0xF50FC457)
    else if r == 11 then
      Pick(k, 0x65B0D9C6, 0x12B7E950, 0x8BBEB8EA, 0xFCB9887C, 0x62DD1DDF, 0x15DA2D49, 0x8CD37CF3, 0xFBD44C65)
    else if r == 12 then
      Pick(k, 0x4DB26158, 0x3AB551CE, 0xA3BC0074, 0xD4BB30E2, 0x4ADFA541, 0x3DD895D7, 0xA4D1C46D, 0xD3D6F4FB)
    else if r == 13 then
      Pick(k, 0x4369E96A, 0x346ED9FC, 0xAD678846, 0xDA60B8D0, 0x44042D73, 0x33031DE5, 0xAA0A4C5F, 0xDD0D7CC9)
    else if r == 14 then
      Pick(k, 0x5005713C, 0x270241AA, 0xBE0B1010, 0xC90C2086, 0x5768B525, 0x206F85B3, 0xB966D409, 0xCE61E49F)
    else Pick(k, 0x5EDEF90E, 0x29D9C998, 0xB0D09822, 0xC7D7A8B4, 0x59B33D17, 0x2EB40D81, 0xB7BD5C3B, 0xC0BA6CAD)
  }

  function Quarter2(r: bv8, k: bv8): bv32 {
    if r == 16 then
      Pick(k, 0xEDB88320, 0x9ABFB3B6, 0x03B6E20C, 0x74B1D29A, 0xEAD54739, 0x9DD277AF, 0x04DB2615, 0x73DC1683)
    else if r == 17 then
      Pick(k, 0xE3630B12, 0x94643B84, 0x0D6D6A3E, 0x7A6A5AA8, 0xE40ECF0B, 0x9309FF9D, 0x0A00AE27, 0x7D079EB1)
    else if r == 18 then
      Pick(k, 0xF00F9344, 0x8708A3D2, 0x1E01F268, 0x6906C2FE, 0xF762575D, 0x806567CB, 0x196C3671, 0x6E6B06E7)
    else if r == 19 then
      Pick(k, 0xFED41B76, 0x89D32BE0, 0x10DA7A5A, 0x67DD4ACC, 0xF9B9DF6F, 0x8EBEEFF9, 0x17B7BE43, 0x60B08ED5)
    else if r == 20 then
      Pick(k, 0xD6D6A3E8, 0xA1D1937E, 0x38D8C2C4, 0x4FDFF252, 0xD1BB67F1, 0xA6BC5767, 0x3FB506DD, 0x48B2364B)
    else if r == 21 then
      Pick(k, 0xD80D2BDA, 0xAF0A1B4C, 0x36034AF6, 0x41047A60, 0xDF60EFC3, 0xA867DF55, 0x316E8EEF, 0x4669BE79)
    else if r == 22 then
      Pick(k, 0xCB61B38C, 0xBC66831A, 0x256FD2A0, 0x5268E236, 0xCC0C7795, 0xBB0B4703, 0x220216B9, 0x5505262F)
    else Pick(k, 0xC5BA3BBE, 0xB2BD0B28, 0x2BB45A92, 0x5CB36A04, 0xC2D7FFA7, 0xB5D0CF31, 0x2CD99E8B, 0x5BDEAE1D)
  }

  function Quarter3(r: bv8, k: bv8): bv32 {
    if r == 24 then
      Pick(k, 0x9B64C2B0, 0xEC63F226, 0x756AA39C, 0x026D930A, 0x9C0906A9, 0xEB0E363F, 0x72076785, 0x05005713)
    else if r == 25 then
      Pick(k, 0x95BF4A82, 0xE2B87A14, 0x7BB12BAE, 0x0CB61B38, 0x92D28E9B, 0xE5D5BE0D, 0x7CDCEFB7, 0x0BDBDF21)
    else if r == 26 then
      Pick(k, 0x86D3D2D4, 0xF1D4E242, 0x68DDB3F8, 0x1FDA836E, 0x81BE16CD, 0xF6B9265B, 0x6FB077E1, 0x18B74777)
    else if r == 27 then
      Pick(k, 0x88085AE6, 0xFF0F6A70, 0x66063BCA, 0x11010B5C, 0x8F659EFF, 0xF862AE69, 0x616BFFD3, 0x166CCF45)
    else if r == 28 then
      Pick(k, 0xA00AE278, 0xD70DD2EE, 0x4E048354, 0x3903B3C2, 0xA7672661, 0xD06016F7, 0x4969474D, 0x3E6E77DB)
    else if r == 29 then
      Pick(k, 0xAED16A4A, 0xD9D65ADC, 0x40DF0B66, 0x37D83BF0, 0xA9BCAE53, 0xDEBB9EC5, 0x47B2CF7F, 0x30B5FFE9)
    else if r == 30 then
      Pick(k, 0xBDBDF21C, 0xCABAC28A, 0x53B39330, 0x24B4A3A6, 0xBAD03605, 0xCDD70693, 0x54DE5729, 0x23D967BF)
    else Pick(k, 0xB3667A2E, 0xC4614AB8, 0x5D681B02, 0x2A6F2B94, 0xB40BBE37, 0xC30C8EA1, 0x5A05DF1B, 0x2D02EF8D)
  }

  function Table(i: bv8): bv32 {
    var r, k := i >> 3, i & 7;
    if r < 8 then Quarter0(r, k) else if r < 16 then Quarter1(r, k) else if r < 24 then Quarter2(r, k)
      else Quarter3(r, k)
  }

  // The table, 16 words at a time.

  lemma Words0IsDivision(i: bv8)
    requires i >> 4 == 0
    ensures Table(i) == Bit8(i as bv32)
  {
    hide Quarter1, Quarter2, Quarter3;
  }

  lemma Words1IsDivision(i: bv8)
    requires i >> 4 == 1
    ensures Table(i) == Bit8(i as bv32)
  {
    hide Quarter1, Quarter2, Quarter3;
  }

  lemma Words2IsDivision(i: bv8)
    requires i >> 4 == 2
    ensures Table(i) == Bit8(i as bv32)
  {
    hide Quarter1, Quarter2, Quarter3;
  }

  lemma Words3IsDivision(i: bv8)
    requires i >> 4 == 3
    ensures Table(i) == Bit8(i as bv32)
  {
    hide Quarter1, Quarter2, Quarter3;
  }

  lemma Words4IsDivision(i: bv8)
    requires i >> 4 == 4
    ensures Table(i) == Bit8(i as bv32)
  {
    hide Quarter0, Quarter2, Quarter3;
  }

  lemma Words5IsDivision(i: bv8)
    requires i >> 4 == 5
    ensures Table(i) == Bit8(i as bv32)
  {
    hide Quarter0, Quarter2, Quarter3;
  }

  lemma Words6IsDivision(i: bv8)
    requires i >> 4 == 6
    ensures Table(i) == Bit8(i as bv32)
  {
    hide Quarter0, Quarter2, Quarter3;
  }

  lemma Words7IsDivision(i: bv8)
    requires i >> 4 == 7
    ensures Table(i) == Bit8(i as bv32)
  {
    hide Quarter0, Quarter2, Quarter3;
  }

  lemma Words8IsDivision(i: bv8)
    requires i >> 4 == 8
    ensures Table(i) == Bit8(i as bv32)
  {
    hide Quarter0, Quarter1, Quarter3;
  }

  lemma Words9IsDivision(i: bv8)
    requires i >> 4 == 9
    ensures Table(i) == Bit8(i as bv32)
  {
    hide Quarter0, Quarter1, Quarter3;
  }

  lemma WordsAIsDivision(i: bv8)
    requires i >> 4 == 10
    ensures Table(i) == Bit8(i as bv32)
  {
    hide Quarter0, Quarter1, Quarter3;
  }

  lemma WordsBIsDivision(i: bv8)
    requires i >> 4 == 11
    ensures Table(i) == Bit8(i as bv32)
  {
    hide Quarter0, Quarter1, Quarter3;
  }

  lemma WordsCIsDivision(i: bv8)
    requires i >> 4 == 12
    ensures Table(i) == Bit8(i as bv32)
  {
    hide Quarter0, Quarter1, Quarter2;
  }

  lemma WordsDIsDivision(i: bv8)
    requires i >> 4 == 13
    ensures Table(i) == Bit8(i as bv32)
  {
    hide Quarter0, Quarter1, Quarter2;
  }

  lemma WordsEIsDivision(i: bv8)
    requires i >> 4 == 14
    ensures Table(i) == Bit8(i as bv32)
  {
    hide Quarter0, Quarter1, Quarter2;
  }

  lemma WordsFIsDivision(i: bv8)
    requires i >> 4 == 15
    ensures Table(i) == Bit8(i as bv32)
  {
    hide Quarter0, Quarter1, Quarter2;
  }

  lemma Quarter0IsDivision(i: bv8)
    requires i >> 6 == 0
    ensures Table(i) == Bit8(i as bv32)
  {
    hide Table, Bit8;
    if i >> 4 == 0 {
      Words0IsDivision(i);
    } else if i >> 4 == 1 {
      Words1IsDivision(i);
    } else if i >> 4 == 2 {
      Words2IsDivision(i);
    } else {
      Words3IsDivision(i);
    }
  }

  lemma Quarter1IsDivision(i: bv8)
    requires i >> 6 == 1
    ensures Table(i) == Bit8(i as bv32)
  {
    hide Table, Bit8;
    if i >> 4 == 4 {
      Words4IsDivision(i);
    } else if i >> 4 == 5 {
      Words5IsDivision(i);
    } else if i >> 4 == 6 {
      Words6IsDivision(i);
    } else {
      Words7IsDivision(i);
    }
  }

  lemma Quarter2IsDivision(i: bv8)
    requires i >> 6 == 2
    ensures Table(i) == Bit8(i as bv32)
  {
    hide Table, Bit8;
    if i >> 4 == 8 {
      Words8IsDivision(i);
    } else if i >> 4 == 9 {
      Words9IsDivision(i);
    } else if i >> 4 == 10 {
      WordsAIsDivision(i);
    } else {
      WordsBIsDivision(i);
    }
  }

  lemma Quarter3IsDivision(i: bv8)
    requires i >> 6 == 3
    ensures Table(i) == Bit8(i as bv32)
  {
    hide Table, Bit8;
    if i >> 4 == 12 {
      WordsCIsDivision(i);
    } else if i >> 4 == 13 {
      WordsDIsDivision(i);
    } else if i >> 4 == 14 {
      WordsEIsDivision(i);
    } else {
      WordsFIsDivision(i);
    }
  }

  /** Each word of the table is the division of its own index. */
  lemma TableIsDivision(i: bv8)
    ensures Table(i) == Bit8(i as bv32)
  {
    hide Table, Bit8;
    if i >> 6 == 0 {
      Quarter0IsDivision(i);
    } else if i >> 6 == 1 {
      Quarter1IsDivision(i);
    } else if i >> 6 == 2 {
      Quarter2IsDivision(i);
    } else {
      Quarter3IsDivision(i);
    }
  }

  function Down2(y: bv32): bv32 {
    y >> 2
  }

  function Down4(y: bv32): bv32 {
    y >> 4
  }

  function Down8(y: bv32): bv32 {
    y >> 8
  }

  /** The lowest 1, 2, 4 or 8 bits are clear. */
  predicate Clear1(y: bv32) {
    y & 1 == 0
  }

  predicate Clear2(y: bv32) {
    y & 3 == 0
  }

  predicate Clear4(y: bv32) {
    y & 0xF == 0
  }

  predicate Clear8(y: bv32) {
    y & 0xFF == 0
  }

  /** Subtracting the polynomial. */
  function Less(x: bv32): bv32 {
    x ^ 0xEDB8_8320
  }

  lemma BitOf(c: bv32)
    ensures Bit(c) == if Odd(c) then Less(Down1(c)) else Down1(c)
  {
  }

  lemma LowBit(x: bv32, y: bv32)
    requires Clear1(y)
    ensures Odd(Xor(x, y)) <==> Odd(x)
  {
  }

  lemma ShiftXor(x: bv32, y: bv32)
    ensures Down1(Xor(x, y)) == Xor(Down1(x), Down1(y))
  {
  }

  lemma LessXor(x: bv32, y: bv32)
    ensures Less(Xor(x, y)) == Xor(Less(x), y)
  {
  }

  /** Where the low bit is clear, a step of the division only moves the others down. */
  lemma BitBelow(x: bv32, y: bv32)
    requires Clear1(y)
    ensures Bit(Xor(x, y)) == Xor(Bit(x), Down1(y))
  {
    hide Bit, Odd, Xor, Down1, Clear1, Less;
    BitOf(x);
    BitOf(Xor(x, y));
    LowBit(x, y);
    ShiftXor(x, y);
    LessXor(Down1(x), Down1(y));
  }

  lemma Shifts2(y: bv32)
    requires Clear2(y)
    ensures Clear1(y) && Clear1(Down1(y)) && Down1(Down1(y)) == Down2(y)
  {
  }

  lemma Bit2Below(x: bv32, y: bv32)
    requires Clear2(y)
    ensures Bit2(Xor(x, y)) == Xor(Bit2(x), Down2(y))
  {
    hide Bit, Xor, Down1, Down2, Down4, Down8, Clear1, Clear2, Clear4, Clear8;
    Shifts2(y);
    BitBelow(x, y);
    BitBelow(Bit(x), Down1(y));
  }

  lemma Shifts4(y: bv32)
    requires Clear4(y)
    ensures Clear2(y) && Clear2(Down2(y)) && Down2(Down2(y)) == Down4(y)
  {
  }

  lemma Bit4Below(x: bv32, y: bv32)
    requires Clear4(y)
    ensures Bit4(Xor(x, y)) == Xor(Bit4(x), Down4(y))
  {
    hide Bit2, Xor, Down1, Down2, Down4, Down8, Clear1, Clear2, Clear4, Clear8;
    Shifts4(y);
    Bit2Below(x, y);
    Bit2Below(Bit2(x), Down2(y));
  }

  lemma Shifts8(y: bv32)
    requires Clear8(y)
    ensures Clear4(y) && Clear4(Down4(y)) && Down4(Down4(y)) == Down8(y)
  {
  }

  lemma Bit8Below(x: bv32, y: bv32)
    requires Clear8(y)
    ensures Bit8(Xor(x, y)) == Xor(Bit8(x), Down8(y))
  {
    hide Bit4, Xor, Down1, Down2, Down4, Down8, Clear1, Clear2, Clear4, Clear8;
    Shifts8(y);
    Bit4Below(x, y);
    Bit4Below(Bit4(x), Down4(y));
  }

  /** The byte that selects a word of the table, as an index and in place. */
  function Index(x: bv32): bv8 {
    (x & 0xFF) as bv8
  }

  function Low(x: bv32): bv32 {
    Index(x) as bv32
  }

  function High(x: bv32): bv32 {
    x & 0xFFFF_FF00
  }

  lemma Halves(d: bv32, b: byte)
    ensures var x := Xor(d, Word(b)); x == Xor(Low(x), High(x)) && Clear8(High(x)) && Down8(d) == Down8(High(x))
  {
    HalvesOfWord(d, b as bv8);
  }

  lemma HalvesOfWord(d: bv32, b: bv8)
    ensures var x := Xor(d, b as bv32); x == Xor(Low(x), High(x)) && Clear8(High(x)) && Down8(d) == Down8(High(x))
  {
  }

  lemma XorSwap(x: bv32, y: bv32)
    ensures Xor(x, y) == Xor(y, x)
  {
  }

  /** What one pass through the loop makes of the digest. */
  function Step(d: bv32, b: byte): bv32 {
    Xor(Down8(d), Table(Index(Xor(d, Word(b)))))
  }

  /** A look-up replaces eight steps of the division. */
  lemma StepIsDivision(d: bv32, b: byte)
    ensures Step(d, b) == Bit8(Xor(d, Word(b)))
  {
    hide Table, Bit8, Index, High, Xor, Down8, Clear8, Word;
    var x := Xor(d, Word(b));
    Halves(d, b);
    TableIsDivision(Index(x));
    Bit8Below(Low(x), High(x));
    XorSwap(Down8(d), Table(Index(x)));
  }

  // ---- the loop

  class Crc32State {
    var digest: bv32

    constructor ()
      ensures digest == ALL_ONES
    {
      digest := ALL_ONES;
    }

    method Update(data: seq<byte>)
      modifies this
      ensures digest == Divide(old(digest), data)
    {
      var i := 0;
      while i < |data|
        invariant i <= |data| && Divide(digest, data[i..]) == Divide(old(digest), data)
      {
        hide Step, Bit8, Word, Xor;
        StepIsDivision(digest, data[i]);
        assert data[i..][1..] == data[i + 1..];
        digest := Step(digest, data[i]);
        i := i + 1;
      }
    }
  }

  /** The digest that a state stands for. */
  function DigestOf(d: bv32): (n: nat)
    ensures n < U32
  {
    (d ^ ALL_ONES) as nat
  }

  /** The checksum of a whole message. */
  function Checksum(s: seq<byte>): (n: nat)
    ensures n < U32
  {
    DigestOf(Divide(ALL_ONES, s))
  }

  /** Updating piece by piece is updating with the whole message. */
  lemma {:induction false} DivideConcat(d: bv32, s: seq<byte>, t: seq<byte>)
    ensures Divide(d, s + t) == Divide(Divide(d, s), t)
    decreases |s|
  {
    hide Bit8, Word, Xor;
    if s == [] {
      ConcatEmpty(t);
    } else {
      DivideConcat(Bit8(Xor(d, Word(s[0]))), s[1..], t);
      assert (s + t)[1..] == s[1..] + t;
    }
  }
}
