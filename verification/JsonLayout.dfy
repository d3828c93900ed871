/**
 What JSON text is made of, byte by byte: the punctuation and the tables that the parser, the
 printer and the grammar share, and documents that are written out.
 */
module JsonLayout {
  import opened Bytes
  import opened JsonValue
  import opened JsonParser
  import opened JsonGrammar
  import opened JsonSyntax
  import opened JsonText
  import ConvCodecs

  // ---- the tables

  /** Every byte that means something, as a character. */
  lemma Punctuation()
    ensures [LBRACKET, RBRACKET, LBRACE, RBRACE, COMMA, COLON, QUOTE, BACKSLASH] == Ascii("[]{},:\"\\")
    ensures [MINUS, PLUS, DOT, ZERO, LOWER_E, UPPER_E, LOWER_U, SPACE, TAB, LF, CR, NUL] == Ascii("-+.0eEu \t\n\r\0")
    ensures NULL_TEXT == Ascii("null") && TRUE_TEXT == Ascii("true") && FALSE_TEXT == Ascii("false")
  {
  }

  lemma ByteClasses(b: byte)
    ensures IsWs(b) <==> b in Ascii(" \t\n\r")
    ensures IsDigit(b) <==> b in Ascii("0123456789")
  {
    var ws, digits := Ascii(" \t\n\r"), Ascii("0123456789");
    assert ws == [32, 9, 10, 13];
    assert forall i :: 0 <= i < 10 ==> digits[i] == 48 + i;
    if IsDigit(b) {
      assert digits[b as int - 48] == b;
    }
  }

  const UPPER_DIGITS: seq<byte> := Ascii("0123456789ABCDEF")
  const LOWER_DIGITS: seq<byte> := Ascii("0123456789abcdef")

  /** The value of a digit is its place among the 16; letters are read in either case. */
  lemma HexDigits(d: nat)
    requires d < 16
    ensures HexDigit(d) == UPPER_DIGITS[d] && HexValue(UPPER_DIGITS[d]) == d && HexValue(LOWER_DIGITS[d]) == d
  {
  }

  lemma NoOtherHexDigits(b: byte)
    ensures var d := HexValue(b); if d < 16 then b == UPPER_DIGITS[d] || b == LOWER_DIGITS[d] else d == 255
  {
    if HexValue(b) < 16 {
      HexDigits(HexValue(b));
    }
  }

  const ESCAPES: seq<byte> := Ascii("\"\\/bfnrt")
  const ESCAPED: seq<byte> := [0x22, 0x5C, 0x2F, 0x08, 0x0C, 0x0A, 0x0D, 0x09]

  /** The short escapes: all of them are read, and all but that of the slash are printed. */
  lemma ShortEscapes(b: byte)
    ensures forall k :: 0 <= k < 8 ==> Unescape(ESCAPES[k]) == ESCAPED[k]
    ensures Unescape(b) != 0 <==> b in ESCAPES
    ensures forall k :: 0 <= k < 8 && k != 2 ==> PrintByte(ESCAPED[k]) == Ascii("\\") + [ESCAPES[k]]
    ensures b !in ESCAPED && b >= 0x20 ==> PrintByte(b) == [b]
    ensures PrintByte(0x2F) == [0x2F]
  {
    assert ESCAPES == [0x22, 0x5C, 0x2F, 0x62, 0x66, 0x6E, 0x72, 0x74];
  }

  /** Other control bytes are printed as four hexadecimal digits. */
  lemma ControlBytes(b: byte)
    requires b < 0x20 && b !in ESCAPED
    ensures var h := PrintByte(b);
            |h| == 6 && h[..4] == Ascii("\\u00") && h[4] in Ascii("01") && HexValue(h[4]) * 16 + HexValue(h[5]) == b
    ensures PrintByte(0x1F) == Ascii("\\u001F")
  {
    var h := PrintByte(b);
    assert ESCAPED[3] == 8 && ESCAPED[4] == 12 && ESCAPED[5] == 10 && ESCAPED[6] == 13 && ESCAPED[7] == 9;
    assert Ascii("01") == [48, 49];
    assert Ascii("01")[b / 16] == h[4];
  }

  /** Two surrogates are the character that the same two words are in UTF-16. */
  lemma SurrogatesAreUtf16(high: nat, low: nat)
    requires 0xD800 <= high <= 0xDBFF && 0xDC00 <= low <= 0xDFFF
    ensures ConvCodecs.DecodeUtf16(true, [high / 0x100, high % 0x100, low / 0x100, low % 0x100])
            == ConvCodecs.Char(Combine(high, low), 4)
    ensures Combine(0xD83D, 0xDE00) == 0x1_F600
  {
    var s: seq<byte> := [high / 0x100, high % 0x100, low / 0x100, low % 0x100];
    assert s[2..] == [low / 0x100, low % 0x100];
    assert ConvCodecs.Word16(true, s) == high && ConvCodecs.Word16(true, s[2..]) == low;
  }

  /** The limits of the two integer types, all of which come back when they are printed. */
  lemma Limits(k: int)
    ensures LLONG_MIN == -9_223_372_036_854_775_808 && LLONG_MAX == 9_223_372_036_854_775_807
    ensures ULLONG_MAX == 18_446_744_073_709_551_615
    ensures Printable(Signed(k)) <==> LLONG_MIN <= k <= LLONG_MAX
    ensures Printable(Unsigned(k)) <==> 0 <= k <= ULLONG_MAX
  {
  }

  lemma DecimalStep(s: seq<byte>, b: byte)
    ensures Decimal(s + [b]) == Decimal(s) * 10 + DigitValue(b)
  {
    var t := s + [b];
    assert t[..|t| - 1] == s && t[|t| - 1] == b;
  }

  /** The first digit counts most. */
  lemma Decimals()
    ensures Decimal(Ascii("3057")) == 3057 && DigitsOf(3057) == Ascii("3057")
    ensures PrintInt(-20) == Ascii("-20") && PrintInt(0) == Ascii("0")
  {
    assert Ascii("3057") == [] + [51] + [48] + [53] + [55];
    DecimalStep([], 51);
    DecimalStep([51], 48);
    DecimalStep([51] + [48], 53);
    DecimalStep([51] + [48] + [53], 55);
    assert DigitsOf(3) == [51] && DigitsOf(30) == [51, 48] && DigitsOf(305) == [51, 48, 53];
    assert DigitsOf(2) == [50] && DigitsOf(20) == [50, 48];
  }

  // ---- a document that is read

  lemma OneItem(x: Item, xs: seq<Item>)
    ensures ItemsText([x] + xs) == ItemText(x) + ItemsText(xs)
    ensures LegalItems([x] + xs) <==> LegalItem(x) && LegalItems(xs)
    ensures Paired([x] + xs) <==> (IsHigh(x) ==> xs != [] && IsLow(xs[0])) && Paired(xs)
    ensures LegalItems([x] + xs) && !IsHigh(x) ==> ItemsMeaning([x] + xs) == ItemMeaning(x) + ItemsMeaning(xs)
  {
    hide ItemText, ItemMeaning, LegalItem, IsHigh, IsLow;
    assert ([x] + xs)[1..] == xs;
  }

  lemma TwoItems(x: Item, y: Item, xs: seq<Item>)
    requires LegalItems([x, y] + xs) && IsHigh(x) && IsLow(y)
    ensures LegalItems(xs) && ItemsMeaning([x, y] + xs)
            == Utf8(Combine(HexNumber(x.hex), HexNumber(y.hex))) + ItemsMeaning(xs)
  {
    hide LegalItem, HexNumber, Utf8, Combine;
    var all := [x, y] + xs;
    assert all[2..] == xs;
    CharFirst(all);
  }

  const SAMPLE_ITEMS: seq<Item> :=
    [Raw(0x41), Short(0x2F), Unicode(Ascii("00E9")), Unicode(Ascii("D83d")), Unicode(Ascii("De00"))]

  const SAMPLE_STRING: seq<byte> := Ascii("A\\/\\u00E9\\uD83d\\uDe00\"")

  lemma SampleCharacters()
    ensures var c, d, e := Ascii("00E9"), Ascii("D83d"), Ascii("De00");
            && IsHex4(c) && IsHex4(d) && IsHex4(e)
            && HexNumber(c) == 0xE9 && HexNumber(d) == 0xD83D && HexNumber(e) == 0xDE00
    ensures Utf8(0xE9) == [0xC3, 0xA9] && Utf8(0x1_F600) == [0xF0, 0x9F, 0x98, 0x80]
  {
  }

  lemma SampleItems()
    ensures var a, b, c, d, e := SAMPLE_ITEMS[0], SAMPLE_ITEMS[1], SAMPLE_ITEMS[2], SAMPLE_ITEMS[3], SAMPLE_ITEMS[4];
            && ItemText(a) == Ascii("A") && ItemText(b) == Ascii("\\/") && ItemText(c) == Ascii("\\u00E9")
            && ItemText(d) == Ascii("\\uD83d") && ItemText(e) == Ascii("\\uDe00")
            && SAMPLE_ITEMS == [a] + ([b] + ([c] + ([d] + [e])))
            && SAMPLE_ITEMS[3..] == [d] + [e] == [d, e] + [] && [e] == [e] + []
  {
  }

  lemma SampleText()
    ensures Ascii("A") + (Ascii("\\/") + (Ascii("\\u00E9") + (Ascii("\\uD83d") + (Ascii("\\uDe00") + [QUOTE]))))
            == SAMPLE_STRING
  {
  }

  lemma SampleString()
    ensures LegalItems(SAMPLE_ITEMS) && Paired(SAMPLE_ITEMS)
    ensures ItemsText(SAMPLE_ITEMS) == SAMPLE_STRING
    ensures ItemsMeaning(SAMPLE_ITEMS) == [0x41, 0x2F, 0xC3, 0xA9, 0xF0, 0x9F, 0x98, 0x80]
  {
    hide ItemText, ItemsText, LegalItems, Paired, ItemsMeaning, IsHex4, HexNumber, Utf8, Ascii;
    var a, b, c, d, e := SAMPLE_ITEMS[0], SAMPLE_ITEMS[1], SAMPLE_ITEMS[2], SAMPLE_ITEMS[3], SAMPLE_ITEMS[4];
    NoItems();
    SampleCharacters();
    SampleItems();
    SampleText();
    OneItem(e, []);
    OneItem(d, [e]);
    OneItem(c, [d] + [e]);
    OneItem(b, [c] + ([d] + [e]));
    OneItem(a, [b] + ([c] + ([d] + [e])));
    TwoItems(d, e, []);
  }

  lemma NoItems()
    ensures ItemsText([]) == [QUOTE] && LegalItems([]) && Paired([]) && ItemsMeaning([]) == []
  {
  }

  lemma SampleNumbers()
    ensures var a, b := SampleInt(), SampleDouble();
            && Text(a) == Ascii("-12") && Legal(a) && Meaning(a) == Signed(-12)
            && Text(b) == Ascii("1.5e+3") && Legal(b) && Meaning(b) == Double(Ascii("1.5e+3"))
  {
    DecimalStep([], 49);
    DecimalStep([49], 50);
    assert Ascii("12") == [49] + [50] && [] + [49] == [49];
    assert ExponentText(SampleDouble().exp) == Ascii("e+3") && FracText(SampleDouble().frac) == Ascii(".5");
  }

  function SampleInt(): Cst {
    CNumber(true, Ascii("12"), [], NoExponent)
  }

  function SampleDouble(): Cst {
    CNumber(false, Ascii("1"), Ascii("5"), Exponent(LOWER_E, [PLUS], Ascii("3")))
  }

  lemma OneElem(e: Elem, es: seq<Elem>)
    ensures ElemsText([e] + es) == Text(e.v) + e.post + (if es == [] then [] else [COMMA] + e.next) + ElemsText(es)
    ensures LegalElems([e] + es) <==> AllWs(e.post) && AllWs(e.next) && Legal(e.v) && LegalElems(es)
    ensures PairedElems([e] + es) <==> PairedValue(e.v) && PairedElems(es)
    ensures LegalElems([e] + es) ==> ElemsMeaning([e] + es) == [Meaning(e.v)] + ElemsMeaning(es)
  {
    hide Text, Legal, PairedValue, Meaning, AllWs;
    assert ([e] + es)[1..] == es;
  }

  lemma OneField(f: Field, fs: seq<Field>)
    ensures FieldsText([f] + fs) == NameText(f) + Text(f.elem.v) + f.elem.post
                                    + (if fs == [] then [] else [COMMA] + f.elem.next) + FieldsText(fs)
    ensures LegalFields([f] + fs) <==> && LegalItems(f.name) && AllWs(f.post) && AllWs(f.mid) && AllWs(f.elem.post)
                                       && AllWs(f.elem.next) && Legal(f.elem.v) && LegalFields(fs)
    ensures PairedFields([f] + fs) <==> Paired(f.name) && PairedValue(f.elem.v) && PairedFields(fs)
    ensures LegalFields([f] + fs) ==>
              FieldsMeaning([f] + fs) == [Member(ItemsMeaning(f.name), Meaning(f.elem.v))] + FieldsMeaning(fs)
  {
    hide Text, NameText, Legal, LegalItems, Paired, PairedValue, ItemsMeaning, Meaning, AllWs;
    assert ([f] + fs)[1..] == fs;
  }

  const SAMPLE_ARRAY: seq<byte> := Ascii("[null, -12,1.5e+3 ]")

  /** A text, up to the white space around it, and its parts. */
  const SAMPLE: seq<byte> := Ascii("{\"k\": ") + SAMPLE_ARRAY + Ascii(",\"s\":\"") + SAMPLE_STRING + Ascii(" }")

  const SAMPLE_VALUE: Value :=
    Obj([Member(Ascii("k"), Arr([Null, Signed(-12), Double(Ascii("1.5e+3"))])),
         Member(Ascii("s"), Str([0x41, 0x2F, 0xC3, 0xA9, 0xF0, 0x9F, 0x98, 0x80]))])

  function SampleArray(): Cst {
    CArray([], [Elem(CNull, [], [SPACE]), Elem(SampleInt(), [], []), Elem(SampleDouble(), [SPACE], [])])
  }

  lemma SampleElems()
    ensures Legal(SampleArray()) && PairedValue(SampleArray()) && Text(SampleArray()) == SAMPLE_ARRAY
    ensures Meaning(SampleArray()) == Arr([Null, Signed(-12), Double(Ascii("1.5e+3"))])
  {
    hide LegalNumber, NumberText, NumberMeaning, LegalElems, ElemsText, PairedElems, ElemsMeaning;
    var a, b, c := SampleArray().elems[0], SampleArray().elems[1], SampleArray().elems[2];
    SampleNumbers();
    NoElems();
    assert [c] + [] == [c] && [a] + ([b] + [c]) == SampleArray().elems;
    OneElem(c, []);
    OneElem(b, [c]);
    OneElem(a, [b] + [c]);
  }

  lemma NoElems()
    ensures ElemsText([]) == [RBRACKET] && LegalElems([]) && PairedElems([]) && ElemsMeaning([]) == []
    ensures FieldsText([]) == [RBRACE] && LegalFields([]) && PairedFields([]) && FieldsMeaning([]) == []
  {
  }

  function SampleFields(): (fs: seq<Field>)
    ensures |fs| == 2
  {
    [Field([Raw(107)], [], [SPACE], Elem(SampleArray(), [], [])),
     Field([Raw(115)], [], [], Elem(CString(SAMPLE_ITEMS), [SPACE], []))]
  }

  lemma SampleNames()
    ensures forall b: byte :: 0x60 < b < 0x80 ==> ItemsText([Raw(b)]) == [b, QUOTE] && ItemsMeaning([Raw(b)]) == [b]
    ensures forall b: byte :: 0x60 < b < 0x80 ==> LegalItems([Raw(b)]) && Paired([Raw(b)])
  {
    assert forall b: byte :: [Raw(b)][1..] == [];
  }

  lemma SampleConcat(k: seq<byte>, arr: seq<byte>, s: seq<byte>, str: seq<byte>)
    ensures [LBRACE] + [] + (k + arr + [] + ([COMMA] + []) + (s + ([QUOTE] + str) + [SPACE] + [] + [RBRACE]))
            == ([LBRACE] + k) + arr + ([COMMA] + s + [QUOTE]) + str + [SPACE, RBRACE]
  {
  }

  lemma SampleNameTexts()
    ensures [LBRACE] + NameText(SampleFields()[0]) == Ascii("{\"k\": ")
    ensures [COMMA] + NameText(SampleFields()[1]) + [QUOTE] == Ascii(",\"s\":\"")
    ensures [SPACE, RBRACE] == Ascii(" }") && [107] == Ascii("k") && [115] == Ascii("s")
  {
    SampleNames();
  }

  lemma SampleMembers()
    ensures var c := CObject([], SampleFields());
            Legal(c) && PairedValue(c) && Text(c) == SAMPLE && Meaning(c) == SAMPLE_VALUE
  {
    hide LegalNumber, NumberText, LegalElems, ElemsText, PairedElems, ElemsMeaning, LegalItems, ItemsText, Paired,
      ItemsMeaning, SampleArray, LegalFields, PairedFields, FieldsMeaning, FieldsText, NameText;
    var a, b := SampleFields()[0], SampleFields()[1];
    SampleElems();
    SampleString();
    SampleNames();
    SampleNameTexts();
    NoElems();
    assert [b] + [] == [b] && [a] + [b] == SampleFields();
    OneField(b, []);
    OneField(a, [b]);
    SampleConcat(NameText(a), SAMPLE_ARRAY, NameText(b), SAMPLE_STRING);
    assert FieldsMeaning([a] + [b]) == SAMPLE_VALUE.members;
  }

  lemma PartsAreNulFree()
    ensures NulFree(SAMPLE_ARRAY) && NulFree(SAMPLE_STRING)
    ensures NulFree(Ascii("{\"k\": ")) && NulFree(Ascii(",\"s\":\"")) && NulFree(Ascii(" }"))
  {
  }

  lemma SampleIsNulFree()
    ensures NulFree(SAMPLE)
  {
    hide NulFree;
    PartsAreNulFree();
    var a, b, c, d, e := Ascii("{\"k\": "), SAMPLE_ARRAY, Ascii(",\"s\":\""), SAMPLE_STRING, Ascii(" }");
    NulFreeBoth(a, b);
    NulFreeBoth(a + b, c);
    NulFreeBoth(a + b + c, d);
    NulFreeBoth(a + b + c + d, e);
  }

  /** The document is read as its value, whatever white space is around it. */
  lemma SampleIsRead(dbl: RangeTest, pre: seq<byte>, post: seq<byte>)
    requires AllWs(pre) && AllWs(post) && dbl(Ascii("1.5e+3"))
    ensures NulFree(pre + SAMPLE + post) && ParseDocument(dbl, ObjectRoot, pre + SAMPLE + post) == Parsed(SAMPLE_VALUE)
  {
    hide ParseDocument, LegalNumber, Legal, PairedValue, Text, Meaning;
    SampleMembers();
    SampleIsNulFree();
    NulFreeBoth(pre, SAMPLE);
    NulFreeBoth(pre + SAMPLE, post);
    SampleInRange(dbl);
    DocumentComplete(dbl, ObjectRoot, pre + SAMPLE + post, pre, CObject([], SampleFields()), post);
  }

  lemma SampleInRange(dbl: RangeTest)
    requires dbl(Ascii("1.5e+3"))
    ensures InRange(dbl, SAMPLE_VALUE)
  {
    var ms := SAMPLE_VALUE.members;
    var vs := ms[0].value.elems;
    assert ms[1..] == [ms[1]] && [ms[1]][1..] == [];
    assert vs[1..] == [vs[1], vs[2]] && [vs[1], vs[2]][1..] == [vs[2]] && [vs[2]][1..] == [];
  }

  // ---- what is refused, one text for every error

  predicate Refused(dbl: RangeTest, text: seq<byte>, e: Error) {
    NulFree(text) && ParseValue(dbl, text, 0) == Err(e)
  }

  lemma LiteralErrors(dbl: RangeTest)
    ensures Refused(dbl, Ascii("nul"), NullExpected)
    ensures Refused(dbl, Ascii("trUe"), TrueExpected)
    ensures Refused(dbl, Ascii("falsE"), FalseExpected)
  {
    assert Ascii("trUe")[0..][2] != TRUE_TEXT[2];
    assert Ascii("falsE")[0..][4] != FALSE_TEXT[4];
  }

  lemma NumberErrors(dbl: RangeTest)
    ensures Refused(dbl, Ascii("01"), NumberLeadingZero)
    ensures Refused(dbl, Ascii("-"), NumberExpected)
    ensures Refused(dbl, Ascii("1."), NumberFracExpected)
    ensures Refused(dbl, Ascii("1e+"), NumberExpExpected)
  {
  }

  lemma RangeError(dbl: RangeTest)
    requires !dbl(Ascii("1.5"))
    ensures Refused(dbl, Ascii("1.5"), NumberRange)
  {
    var s := Ascii("1.5");
    assert s[0..3] == s && SkipDigits(s, 0) == 1 && SkipFrac(s, 1) == Ok(true, 3) && SkipExp(s, 3) == Ok(false, 3);
  }

  /** Behind the quote that opens a string. */
  predicate NoString(text: seq<byte>, e: Error) {
    NulFree(text) && StringFrom(text, 0, []) == Err(e)
  }

  lemma StringErrors()
    ensures NoString([], UnterminatedString)
    ensures NoString(Ascii("\t"), UnescapedChar)
    ensures NoString(Ascii("\\x"), InvalidEscapeChar)
  {
  }

  lemma HexError()
    ensures NoString(Ascii("\\u00g0"), InvalidHex)
  {
    assert Hex4(Ascii("\\u00g0"), 2) == Err(InvalidHex);
  }

  lemma MissingSurrogate()
    ensures NoString(Ascii("\\ud800\""), CorruptedSurrogatePair)
  {
    assert Hex4(Ascii("\\ud800\""), 2) == Ok(0xD800, 6);
  }

  lemma WrongSurrogate()
    ensures NoString(Ascii("\\ud800\\ud800"), InvalidSurrogatePair)
  {
    var s := Ascii("\\ud800\\ud800");
    assert Hex4(s, 2) == Ok(0xD800, 6) && Hex4(s, 8) == Ok(0xD800, 12);
  }

  /** Behind a bracket that opens an array. */
  predicate NoArray(dbl: RangeTest, text: seq<byte>, e: Error) {
    NulFree(text) && ArrayFrom(dbl, text, 0, []) == Err(e)
  }

  lemma ArrayErrors(dbl: RangeTest)
    ensures NoArray(dbl, Ascii("[];"), CorruptedArray)
    ensures NoArray(dbl, Ascii("]"), CorruptedArray)
  {
  }

  /** Behind a brace that opens an object. */
  predicate NoObject(dbl: RangeTest, text: seq<byte>, e: Error) {
    NulFree(text) && ObjectFrom(dbl, text, 0, []) == Err(e)
  }

  lemma NameErrors(dbl: RangeTest)
    ensures NoObject(dbl, Ascii("0"), StringExpected)
    ensures NoObject(dbl, Ascii("\"\","), ColonExpected)
  {
  }

  lemma SeparatorError(dbl: RangeTest)
    ensures NoObject(dbl, Ascii("\"\":[];"), CorruptedObject)
  {
    var s := Ascii("\"\":[];");
    assert NameAt(s, 0) == Ok([], 3) && ParseValue(dbl, s, 3) == Ok(Arr([]), 5);
  }

  lemma MissingValue(dbl: RangeTest)
    ensures NoObject(dbl, Ascii("\"\":}"), CorruptedObject)
  {
    var s := Ascii("\"\":}");
    assert NameAt(s, 0) == Ok([], 3) && ParseValue(dbl, s, 3) == Unknown(3);
  }

  predicate NoDocument(dbl: RangeTest, root: Root, text: seq<byte>, e: Error) {
    NulFree(text) && ParseDocument(dbl, root, text) == Rejected(e)
  }

  lemma DocumentErrors(dbl: RangeTest, root: Root)
    ensures NoDocument(dbl, root, Ascii(" "), EmptyDocument)
    ensures NoDocument(dbl, ArrayRoot, Ascii("{"), ArrayExpected)
    ensures NoDocument(dbl, ObjectRoot, Ascii("["), ObjectExpected)
    ensures NoDocument(dbl, ArrayRoot, Ascii("[];"), TrailingSymbols)
    ensures NoDocument(dbl, ArrayRoot, Ascii("[;"), UnknownType)
  {
  }

  // ---- a value that is printed

  const PRINTED: Value :=
    Obj([Member(Ascii("k"), Arr([Unsigned(10), Signed(-7), Bool(true)])), Member(Ascii("s"), Str(Ascii("q\"\n")))])

  function Eol(f: Flags): seq<byte> {
    if f.crlf then Ascii("\r\n") else Ascii("\n")
  }

  /** A line with its line break. */
  function Line(f: Flags, text: seq<byte>): seq<byte> {
    text + Eol(f)
  }

  lemma PrintedNumbers(f: Flags, n: nat)
    ensures PrintValue(Unsigned(10), f, n) == Ascii("10") && PrintValue(Signed(-7), f, n) == Ascii("-7")
  {
    assert DigitsOf(1) == Ascii("1") && DigitsOf(10) == Ascii("10");
  }

  lemma PrintedStrings()
    ensures PrintString(Ascii("k")) == Ascii("\"k\"") && PrintString(Ascii("s")) == Ascii("\"s\"")
    ensures PrintString(Ascii("q\"\n")) == PRINTED_STRING
  {
    assert Ascii("k")[1..] == [] && Ascii("s")[1..] == [];
    var s := Ascii("q\"\n");
    assert s[1..] == [34, 10] && s[1..][1..] == [10] && [10][1..] == [];
  }

  lemma OnePrinted(v: Value, vs: seq<Value>, f: Flags, n: nat)
    ensures PrintElems([v] + vs, f, n)
            == Ident(f, n) + PrintValue(v, f, n) + (if vs == [] then [] else [COMMA]) + PrintElems(vs, f, n)
  {
    hide Ident, PrintValue;
    assert ([v] + vs)[1..] == vs;
  }

  lemma OneMember(m: Member, ms: seq<Member>, f: Flags, n: nat)
    ensures PrintMembers([m] + ms, f, n)
            == Ident(f, n) + PrintString(m.name) + Colon(f) + PrintValue(m.value, f, n)
               + (if ms == [] then [] else [COMMA]) + PrintMembers(ms, f, n)
  {
    hide Ident, PrintValue, PrintString, Colon;
    assert ([m] + ms)[1..] == ms;
  }

  lemma Idents(f: Flags)
    ensures f.compact ==> Ident(f, 0) == Ident(f, 2) == Ident(f, 4) == []
    ensures !f.compact ==> Ident(f, 0) == Eol(f)
    ensures !f.compact ==> Ident(f, 2) == Eol(f) + Ascii("  ") && Ident(f, 4) == Eol(f) + Ascii("    ")
  {
  }

  lemma NothingPrinted(f: Flags, n: nat)
    ensures PrintElems([], f, n) == [] && PrintMembers([], f, n) == []
  {
  }

  const PRINTED_ELEMS: seq<Value> := [Unsigned(10), Signed(-7), Bool(true)]

  lemma PrintedElements(f: Flags, n: nat)
    ensures var i := Ident(f, n);
            PrintElems(PRINTED_ELEMS, f, n)
            == i + Ascii("10") + [COMMA] + (i + Ascii("-7") + [COMMA] + (i + Ascii("true") + [] + []))
  {
    hide PrintInt, PrintElems, Ident;
    PrintedNumbers(f, n);
    Punctuation();
    NothingPrinted(f, n);
    var x, y, z := Unsigned(10), Signed(-7), Bool(true);
    assert PRINTED_ELEMS == [x] + ([y] + [z]) && [z] == [z] + [];
    OnePrinted(z, [], f, n);
    OnePrinted(y, [z], f, n);
    OnePrinted(x, [y] + [z], f, n);
  }

  lemma ElementLines(e: seq<byte>, s: seq<byte>, t: seq<byte>, x: seq<byte>, y: seq<byte>, z: seq<byte>, c: seq<byte>)
    ensures var i := e + s;
            [LBRACKET] + (i + x + c + (i + y + c + (i + z + [] + []))) + (e + t) + [RBRACKET]
            == ([LBRACKET] + e) + (s + x + c + e) + (s + y + c + e) + (s + z + e) + (t + [RBRACKET])
  {
  }

  lemma ArrayPieces()
    ensures [LBRACKET] == Ascii("[") && Ascii("  ") + [RBRACKET] == Ascii("  ]")
    ensures Ascii("    ") + Ascii("10") + [COMMA] == Ascii("    10,")
    ensures Ascii("    ") + Ascii("-7") + [COMMA] == Ascii("    -7,")
    ensures Ascii("    ") + Ascii("true") == Ascii("    true")
  {
  }

  lemma ArrayInOneLine()
    ensures [LBRACKET] + ([] + Ascii("10") + [COMMA] + ([] + Ascii("-7") + [COMMA] + ([] + Ascii("true") + [] + [])))
            + [] + [RBRACKET] == Ascii("[10,-7,true]")
  {
  }

  /** Inside something that is indented by two. */
  lemma PrintedArray(f: Flags)
    ensures PrintValue(Arr(PRINTED_ELEMS), f, 2)
            == if f.compact then Ascii("[10,-7,true]")
               else Line(f, Ascii("[")) + Line(f, Ascii("    10,")) + Line(f, Ascii("    -7,"))
                    + Line(f, Ascii("    true")) + Ascii("  ]")
  {
    hide PrintElems, Ident, Eol, Ascii;
    Idents(f);
    PrintedElements(f, 4);
    if f.compact {
      ArrayInOneLine();
    } else {
      ElementLines(Eol(f), Ascii("    "), Ascii("  "), Ascii("10"), Ascii("-7"), Ascii("true"), [COMMA]);
      ArrayPieces();
    }
  }

  const PRINTED_STRING: seq<byte> := Ascii("\"q\\\"\\n\"")

  lemma PrintedMembers(f: Flags, n: nat)
    ensures var i, a := Ident(f, n), PrintValue(Arr(PRINTED_ELEMS), f, n);
            PrintMembers(PRINTED.members, f, n)
            == i + Ascii("\"k\"") + Colon(f) + a + [COMMA] + (i + Ascii("\"s\"") + Colon(f) + PRINTED_STRING + [] + [])
  {
    hide PrintElems, PrintMembers, PrintString, Ident, Colon;
    PrintedStrings();
    NothingPrinted(f, n);
    var x, y := PRINTED.members[0], PRINTED.members[1];
    assert PRINTED.members == [x] + [y] && [y] == [y] + [];
    OneMember(y, [], f, n);
    OneMember(x, [y], f, n);
  }

  lemma MemberLines(e: seq<byte>, s: seq<byte>, k: seq<byte>, c: seq<byte>, a: seq<byte>, m: seq<byte>, str: seq<byte>)
    ensures var i := e + s;
            [LBRACE] + (i + k + c + a + [COMMA] + (i + m + c + str + [] + [])) + e + [RBRACE]
            == ([LBRACE] + e) + (s + k + c) + a + ([COMMA] + e) + (s + m + c) + (str + e) + [RBRACE]
  {
  }

  lemma ObjectPieces(f: Flags)
    ensures [LBRACE] == Ascii("{") && [RBRACE] == Ascii("}") && [COMMA] == Ascii(",")
    ensures f.compact ==> Ascii("\"k\"") + Colon(f) == Ascii("\"k\":") && Ascii("\"s\"") + Colon(f) == Ascii("\"s\":")
    ensures !f.compact ==> && Ascii("  ") + Ascii("\"k\"") + Colon(f) == Ascii("  \"k\": ")
                           && Ascii("  ") + Ascii("\"s\"") + Colon(f) == Ascii("  \"s\": ")
  {
  }

  /** One member on each line, or all in one line without any white space. */
  lemma PrintedObject(f: Flags)
    ensures var a := PrintValue(Arr(PRINTED_ELEMS), f, 2);
            PrintValue(PRINTED, f, 0)
            == if f.compact then
                 Ascii("{") + Ascii("\"k\":") + a + Ascii(",") + Ascii("\"s\":") + PRINTED_STRING + Ascii("}")
               else Line(f, Ascii("{")) + Ascii("  \"k\": ") + a + Line(f, Ascii(",")) + Ascii("  \"s\": ")
                    + Line(f, PRINTED_STRING) + Ascii("}")
  {
    hide PrintElems, PrintMembers, PrintString, Ident, Colon, Eol, Ascii;
    Idents(f);
    PrintedMembers(f, 2);
    ObjectPieces(f);
    var a := PrintValue(Arr(PRINTED_ELEMS), f, 2);
    if f.compact {
      MembersInOneLine(Ascii("\"k\""), Colon(f), a, Ascii("\"s\""), PRINTED_STRING);
    } else {
      MemberLines(Eol(f), Ascii("  "), Ascii("\"k\""), Colon(f), a, Ascii("\"s\""), PRINTED_STRING);
    }
  }

  lemma MembersInOneLine(k: seq<byte>, c: seq<byte>, a: seq<byte>, m: seq<byte>, str: seq<byte>)
    ensures [LBRACE] + ([] + k + c + a + [COMMA] + ([] + m + c + str + [] + [])) + [] + [RBRACE]
            == [LBRACE] + (k + c) + a + [COMMA] + (m + c) + str + [RBRACE]
  {
  }

  /** What is empty has its brackets on two lines. */
  lemma PrintedEmpty(f: Flags)
    ensures PrintValue(Arr([]), f, 0) == if f.compact then Ascii("[]") else Line(f, Ascii("[")) + Ascii("]")
    ensures PrintValue(Obj([]), f, 0) == if f.compact then Ascii("{}") else Line(f, Ascii("{")) + Ascii("}")
    ensures PrintValue(Null, f, 0) == Ascii("null") && PrintValue(Bool(false), f, 0) == Ascii("false")
  {
    Idents(f);
  }
}
