/** The text that the printer produces, and that parsing it gives the value back. */
module JsonText {
  import opened Bytes
  import opened JsonValue
  import opened JsonParser
  import opened JsonGrammar
  import opened JsonComplete
  import opened JsonSyntax

  /** `double` stands for printf: what it makes of the number that a text denotes. */
  datatype Flags = Flags(compact: bool, crlf: bool, double: seq<byte> -> seq<byte>)

  const IDENT_STEP: nat := 2

  function Spaces(n: nat): (r: seq<byte>)
    ensures |r| == n && AllWs(r)
  {
    seq(n, _ => SPACE)
  }

  /** A line break and the indentation of the next line. */
  function Ident(f: Flags, n: nat): (r: seq<byte>)
    ensures AllWs(r)
  {
    if f.compact then [] else (if f.crlf then [CR, LF] else [LF]) + Spaces(n)
  }

  function HexDigit(d: nat): (b: byte)
    requires d < 16
    ensures HexValue(b) == d
  {
    if d < 10 then 48 + d else 55 + d
  }

  /** The letter of a short escape, 0 for a byte that is printed as it is, `u` for the rest. */
  function EscapeLetter(b: byte): (e: byte) {
    if b == 8 then 98
    else if b == TAB then 116
    else if b == LF then 110
    else if b == 12 then 102
    else if b == CR then 114
    else if b < 0x20 then LOWER_U
    else if b == QUOTE || b == BACKSLASH then b
    else 0
  }

  function PrintByte(b: byte): (r: seq<byte>) {
    var e := EscapeLetter(b);
    if e == 0 then [b]
    else if e != LOWER_U then [BACKSLASH, e]
    else [BACKSLASH, LOWER_U, ZERO, ZERO, HexDigit(b / 16), HexDigit(b % 16)]
  }

  function PrintBytes(s: seq<byte>): (r: seq<byte>) {
    if s == [] then [] else PrintByte(s[0]) + PrintBytes(s[1..])
  }

  function PrintString(s: seq<byte>): (r: seq<byte>) {
    [QUOTE] + PrintBytes(s) + [QUOTE]
  }

  /** Decimal digits without leading zeros. */
  function DigitsOf(n: nat): (r: seq<byte>)
    ensures r != [] && AllDigits(r)
  {
    if n < 10 then [48 + n] else DigitsOf(n / 10) + [48 + n % 10]
  }

  function PrintInt(n: int): (r: seq<byte>) {
    if n < 0 then [MINUS] + DigitsOf(-n) else DigitsOf(n)
  }

  function PrintValue(v: Value, f: Flags, n: nat): (r: seq<byte>)
    decreases v, 0
  {
    match v
    case Null => NULL_TEXT
    case Bool(b) => if b then TRUE_TEXT else FALSE_TEXT
    case Str(s) => PrintString(s)
    case Signed(k) => PrintInt(k)
    case Unsigned(k) => PrintInt(k)
    case Double(text) => f.double(text)
    case Arr(elems) => [LBRACKET] + PrintElems(elems, f, n + IDENT_STEP) + Ident(f, n) + [RBRACKET]
    case Obj(members) => [LBRACE] + PrintMembers(members, f, n + IDENT_STEP) + Ident(f, n) + [RBRACE]
  }

  function PrintElems(vs: seq<Value>, f: Flags, n: nat): (r: seq<byte>)
    decreases vs, 0
  {
    if vs == [] then []
    else Ident(f, n) + PrintValue(vs[0], f, n) + (if |vs| == 1 then [] else [COMMA]) + PrintElems(vs[1..], f, n)
  }

  function Colon(f: Flags): (r: seq<byte>) {
    if f.compact then [COLON] else [COLON, SPACE]
  }

  function PrintMembers(ms: seq<Member>, f: Flags, n: nat): (r: seq<byte>)
    decreases ms, 0
  {
    if ms == [] then []
    else Ident(f, n) + PrintString(ms[0].name) + Colon(f) + PrintValue(ms[0].value, f, n)
         + (if |ms| == 1 then [] else [COMMA]) + PrintMembers(ms[1..], f, n)
  }

  // ---- the values that survive printing

  /** No doubles, whose text is rounded, integers of 64 bits, and C strings. */
  predicate Printable(v: Value)
    decreases v, 0
  {
    match v
    case Str(s) => NulFree(s)
    case Signed(k) => LLONG_MIN <= k <= LLONG_MAX
    case Unsigned(k) => 0 <= k <= ULLONG_MAX
    case Double(_) => false
    case Arr(elems) => PrintableElems(elems)
    case Obj(members) => PrintableMembers(members)
    case _ => true
  }

  predicate PrintableElems(vs: seq<Value>)
    decreases vs, 0
  {
    vs == [] || (Printable(vs[0]) && PrintableElems(vs[1..]))
  }

  predicate PrintableMembers(ms: seq<Member>)
    decreases ms, 0
  {
    ms == [] || (NulFree(ms[0].name) && Printable(ms[0].value) && PrintableMembers(ms[1..]))
  }

  // ---- what is read back

  /** An integer of the signed type that is not negative comes back with the unsigned one. */
  function Reread(v: Value): (r: Value)
    decreases v, 0
  {
    match v
    case Signed(k) => IntOf(k < 0, k)
    case Arr(elems) => Arr(RereadElems(elems))
    case Obj(members) => Obj(RereadMembers(members))
    case _ => v
  }

  function RereadElems(vs: seq<Value>): (r: seq<Value>)
    ensures |r| == |vs|
    decreases vs, 0
  {
    if vs == [] then [] else [Reread(vs[0])] + RereadElems(vs[1..])
  }

  function RereadMembers(ms: seq<Member>): (r: seq<Member>)
    ensures |r| == |ms|
    decreases ms, 0
  {
    if ms == [] then [] else [Member(ms[0].name, Reread(ms[0].value))] + RereadMembers(ms[1..])
  }

  /** No integer of the signed type could be of the unsigned one. */
  predicate SignedIfNegative(v: Value)
    decreases v, 0
  {
    match v
    case Signed(k) => k < 0
    case Arr(elems) => AllSignedIfNegative(elems)
    case Obj(members) => MembersSignedIfNegative(members)
    case _ => true
  }

  predicate AllSignedIfNegative(vs: seq<Value>)
    decreases vs, 0
  {
    vs == [] || (SignedIfNegative(vs[0]) && AllSignedIfNegative(vs[1..]))
  }

  predicate MembersSignedIfNegative(ms: seq<Member>)
    decreases ms, 0
  {
    ms == [] || (SignedIfNegative(ms[0].value) && MembersSignedIfNegative(ms[1..]))
  }

  /** These are the values that come back as they were. */
  lemma {:induction false} RereadIsSame(v: Value)
    ensures Reread(v) == v <==> SignedIfNegative(v)
    decreases v, 1
  {
    match v
    case Arr(elems) => RereadElemsAreSame(elems);
    case Obj(members) => RereadMembersAreSame(members);
    case _ =>
  }

  lemma {:induction false} RereadElemsAreSame(vs: seq<Value>)
    ensures RereadElems(vs) == vs <==> AllSignedIfNegative(vs)
    decreases vs, 0
  {
    hide Reread, SignedIfNegative;
    if vs == [] {
    } else {
      var r := RereadElems(vs);
      RereadIsSame(vs[0]);
      RereadElemsAreSame(vs[1..]);
      assert vs == [vs[0]] + vs[1..] && r[0] == Reread(vs[0]) && r[1..] == RereadElems(vs[1..]);
    }
  }

  lemma {:induction false} RereadMembersAreSame(ms: seq<Member>)
    ensures RereadMembers(ms) == ms <==> MembersSignedIfNegative(ms)
    decreases ms, 0
  {
    hide Reread, SignedIfNegative;
    if ms == [] {
    } else {
      var r := RereadMembers(ms);
      RereadIsSame(ms[0].value);
      RereadMembersAreSame(ms[1..]);
      assert ms == [ms[0]] + ms[1..] && r[0].value == Reread(ms[0].value) && r[1..] == RereadMembers(ms[1..]);
    }
  }

  // ---- the syntax tree of the printed text

  function ItemOf(b: byte): (x: Item) {
    var e := EscapeLetter(b);
    if e == 0 then Raw(b)
    else if e != LOWER_U then Short(e)
    else Unicode([ZERO, ZERO, HexDigit(b / 16), HexDigit(b % 16)])
  }

  function ItemsOf(s: seq<byte>): (xs: seq<Item>) {
    if s == [] then [] else [ItemOf(s[0])] + ItemsOf(s[1..])
  }

  function IntCst(k: int): Cst {
    CNumber(k < 0, DigitsOf(if k < 0 then -k else k), [], NoExponent)
  }

  function CstOf(v: Value, f: Flags, n: nat): (c: Cst)
    decreases v, 0
  {
    match v
    case Null => CNull
    case Bool(b) => if b then CTrue else CFalse
    case Str(s) => CString(ItemsOf(s))
    case Signed(k) => IntCst(k)
    case Unsigned(k) => IntCst(k)
    case Double(_) => CNull
    case Arr(elems) => CArray(Ident(f, if elems == [] then n else n + IDENT_STEP), ElemsOf(elems, f, n))
    case Obj(members) => CObject(Ident(f, if members == [] then n else n + IDENT_STEP), FieldsOf(members, f, n))
  }

  function ElemsOf(vs: seq<Value>, f: Flags, n: nat): (es: seq<Elem>)
    ensures |es| == |vs|
    decreases vs, 0
  {
    if vs == [] then []
    else
      var last := |vs| == 1;
      [Elem(CstOf(vs[0], f, n + IDENT_STEP), if last then Ident(f, n) else [],
            if last then [] else Ident(f, n + IDENT_STEP))]
      + ElemsOf(vs[1..], f, n)
  }

  function FieldsOf(ms: seq<Member>, f: Flags, n: nat): (fs: seq<Field>)
    ensures |fs| == |ms|
    decreases ms, 0
  {
    if ms == [] then []
    else
      var last := |ms| == 1;
      [Field(ItemsOf(ms[0].name), [], if f.compact then [] else [SPACE],
             Elem(CstOf(ms[0].value, f, n + IDENT_STEP), if last then Ident(f, n) else [],
                  if last then [] else Ident(f, n + IDENT_STEP)))]
      + FieldsOf(ms[1..], f, n)
  }

  lemma ItemOfByte(b: byte)
    requires b != 0
    ensures LegalItem(ItemOf(b)) && !IsHigh(ItemOf(b)) && ItemText(ItemOf(b)) == PrintByte(b)
            && ItemMeaning(ItemOf(b)) == [b]
  {
    if EscapeLetter(b) == LOWER_U {
      var hex := [ZERO, ZERO, HexDigit(b / 16), HexDigit(b % 16)];
      assert IsHex4(hex) && HexNumber(hex) == b;
    }
  }

  lemma {:induction false} ItemsOfString(s: seq<byte>)
    requires NulFree(s)
    ensures LegalItems(ItemsOf(s)) && Paired(ItemsOf(s))
    ensures ItemsText(ItemsOf(s)) == PrintBytes(s) + [QUOTE] && ItemsMeaning(ItemsOf(s)) == s
    decreases |s|
  {
    hide ItemOf, ItemText, ItemMeaning, LegalItem, IsHigh, PrintByte;
    if s == [] {
    } else {
      ItemOfByte(s[0]);
      ItemsOfString(s[1..]);
      ConcatAssoc(PrintByte(s[0]), PrintBytes(s[1..]), [QUOTE]);
    }
  }

  lemma {:induction false} DecimalOfDigits(n: nat)
    ensures Decimal(DigitsOf(n)) == n
    ensures n > 0 ==> DigitsOf(n)[0] != ZERO
  {
    var r := DigitsOf(n);
    if n < 10 {
      assert r[..0] == [] && r[|r| - 1] == 48 + n;
    } else {
      DecimalOfDigits(n / 10);
      assert r[..|r| - 1] == DigitsOf(n / 10) && r[|r| - 1] == 48 + n % 10;
    }
  }

  lemma IntRoundTrip(k: int)
    requires LLONG_MIN <= k <= ULLONG_MAX
    ensures var c := IntCst(k);
            LegalNumber(c) && NumberText(c) == PrintInt(k) && NumberMeaning(c) == IntOf(k < 0, k)
  {
    hide DigitsOf, Decimal, AllDigits, LegalNumber, NumberText, PrintInt;
    DecimalOfDigits(if k < 0 then -k else k);
    IntIsLegal(k);
    IntText(k);
  }

  lemma IntIsLegal(k: int)
    ensures LegalNumber(IntCst(k))
  {
    var n := if k < 0 then -k else k;
    DecimalOfDigits(n);
    assert n == 0 ==> DigitsOf(n) == [ZERO];
  }

  lemma IntText(k: int)
    ensures NumberText(IntCst(k)) == PrintInt(k)
  {
    hide DigitsOf;
    var digits := DigitsOf(if k < 0 then -k else k);
    ConcatEmpty(if k < 0 then [MINUS] + digits else digits);
    ConcatEmpty(digits);
  }

  // ---- the tree is legal, has the printed text and means the value

  lemma {:induction false} CstOfValue(dbl: RangeTest, v: Value, f: Flags, n: nat)
    requires Printable(v)
    ensures var c := CstOf(v, f, n);
            && Legal(c) && PairedValue(c) && Text(c) == PrintValue(v, f, n)
            && Meaning(c) == Reread(v) && InRange(dbl, Reread(v))
    decreases v, 2
  {
    match v
    case Str(s) =>
      ItemsOfString(s);
      ConcatAssoc([QUOTE], PrintBytes(s), [QUOTE]);
    case Signed(k) => IntRoundTrip(k);
    case Unsigned(k) => IntRoundTrip(k);
    case Arr(elems) => CstOfArray(dbl, elems, f, n);
    case Obj(members) => CstOfObject(dbl, members, f, n);
    case _ =>
  }

  lemma Bracketed(open: byte, i: seq<byte>, t: seq<byte>, x: seq<byte>, y: seq<byte>, close: byte)
    requires i + t == x + (y + [close])
    ensures [open] + i + t == [open] + x + y + [close]
  {
    ConcatAssoc([open], i, t);
    ConcatAssoc([open], x, y + [close]);
    ConcatAssoc([open] + x, y, [close]);
  }

  lemma {:induction false} CstOfArray(dbl: RangeTest, elems: seq<Value>, f: Flags, n: nat)
    requires PrintableElems(elems)
    ensures var c := CstOf(Arr(elems), f, n);
            && Legal(c) && PairedValue(c) && Text(c) == PrintValue(Arr(elems), f, n)
            && Meaning(c) == Reread(Arr(elems)) && AllInRange(dbl, RereadElems(elems))
    decreases elems, 1
  {
    hide Ident, ElemsText, LegalElems, PairedElems, AllInRange, PrintElems, ElemsOf, ElemsMeaning;
    ElemsOfValues(dbl, elems, f, n);
    NoTexts(f, n);
    if elems != [] {
      Bracketed(LBRACKET, Ident(f, n + IDENT_STEP), ElemsText(ElemsOf(elems, f, n)),
                PrintElems(elems, f, n + IDENT_STEP), Ident(f, n), RBRACKET);
    } else {
      ConcatEmpty([LBRACKET]);
    }
  }

  lemma {:induction false} CstOfObject(dbl: RangeTest, members: seq<Member>, f: Flags, n: nat)
    requires PrintableMembers(members)
    ensures var c := CstOf(Obj(members), f, n);
            && Legal(c) && PairedValue(c) && Text(c) == PrintValue(Obj(members), f, n)
            && Meaning(c) == Reread(Obj(members)) && MembersInRange(dbl, RereadMembers(members))
    decreases members, 1
  {
    hide Ident, FieldsText, LegalFields, PairedFields, MembersInRange, PrintMembers, FieldsOf, FieldsMeaning;
    FieldsOfMembers(dbl, members, f, n);
    NoTexts(f, n);
    if members != [] {
      Bracketed(LBRACE, Ident(f, n + IDENT_STEP), FieldsText(FieldsOf(members, f, n)),
                PrintMembers(members, f, n + IDENT_STEP), Ident(f, n), RBRACE);
    } else {
      ConcatEmpty([LBRACE]);
    }
  }

  lemma NoTexts(f: Flags, n: nat)
    ensures ElemsText(ElemsOf([], f, n)) == [RBRACKET] && PrintElems([], f, n + IDENT_STEP) == []
    ensures FieldsText(FieldsOf([], f, n)) == [RBRACE] && PrintMembers([], f, n + IDENT_STEP) == []
  {
  }

  lemma JoinLast(a: seq<byte>, t: seq<byte>, p: seq<byte>, r: seq<byte>)
    ensures a + (t + p + [] + r) == a + t + [] + [] + (p + r)
  {
  }

  lemma JoinMore(a: seq<byte>, t: seq<byte>, c: seq<byte>, r: seq<byte>, x: seq<byte>, y: seq<byte>)
    requires a + r == x + y
    ensures a + (t + [] + (c + a) + r) == a + t + c + x + y
  {
    assert a + (t + [] + (c + a) + r) == a + t + c + (a + r);
    assert a + t + c + (x + y) == a + t + c + x + y;
  }

  lemma {:induction false} ElemsOfValues(dbl: RangeTest, vs: seq<Value>, f: Flags, n: nat)
    requires PrintableElems(vs)
    ensures var es := ElemsOf(vs, f, n);
            && LegalElems(es) && PairedElems(es) && ElemsMeaning(es) == RereadElems(vs)
            && AllInRange(dbl, RereadElems(vs))
            && (vs != [] ==> Ident(f, n + IDENT_STEP) + ElemsText(es)
                             == PrintElems(vs, f, n + IDENT_STEP) + (Ident(f, n) + [RBRACKET]))
    decreases vs, 0
  {
    hide Ident, Text, Legal, PairedValue, Meaning, InRange, CstOf, PrintValue, Printable;
    if vs == [] {
    } else {
      CstOfValue(dbl, vs[0], f, n + IDENT_STEP);
      ElemsOfValues(dbl, vs[1..], f, n);
      NoElems();
      var a, t := Ident(f, n + IDENT_STEP), PrintValue(vs[0], f, n + IDENT_STEP);
      if |vs| == 1 {
        JoinLast(a, t, Ident(f, n), [RBRACKET]);
      } else {
        JoinMore(a, t, [COMMA], ElemsText(ElemsOf(vs[1..], f, n)),
                 PrintElems(vs[1..], f, n + IDENT_STEP), Ident(f, n) + [RBRACKET]);
      }
    }
  }

  lemma NameOfMember(m: Member, f: Flags, e: Elem)
    requires NulFree(m.name)
    ensures var x := Field(ItemsOf(m.name), [], if f.compact then [] else [SPACE], e);
            && LegalItems(x.name) && Paired(x.name) && AllWs(x.mid) && ItemsMeaning(x.name) == m.name
            && NameText(x) == PrintString(m.name) + Colon(f)
  {
    ItemsOfString(m.name);
    var i, mid := PrintBytes(m.name), if f.compact then [] else [SPACE];
    assert [QUOTE] + (i + [QUOTE]) + [] + [COLON] + mid == [QUOTE] + i + [QUOTE] + ([COLON] + mid);
  }

  lemma {:induction false} FieldsOfMembers(dbl: RangeTest, ms: seq<Member>, f: Flags, n: nat)
    requires PrintableMembers(ms)
    ensures var fs := FieldsOf(ms, f, n);
            && LegalFields(fs) && PairedFields(fs) && FieldsMeaning(fs) == RereadMembers(ms)
            && MembersInRange(dbl, RereadMembers(ms))
            && (ms != [] ==> Ident(f, n + IDENT_STEP) + FieldsText(fs)
                             == PrintMembers(ms, f, n + IDENT_STEP) + (Ident(f, n) + [RBRACE]))
    decreases ms, 0
  {
    hide Ident, Text, Legal, Paired, PairedValue, Meaning, InRange, CstOf, PrintValue, Printable, NameText, PrintString,
      Colon, LegalItems, ItemsMeaning, ItemsOf, NulFree;
    if ms == [] {
    } else {
      var fs := FieldsOf(ms, f, n);
      NameOfMember(ms[0], f, fs[0].elem);
      CstOfValue(dbl, ms[0].value, f, n + IDENT_STEP);
      FieldsOfMembers(dbl, ms[1..], f, n);
      NoElems();
      var a, t, v := Ident(f, n + IDENT_STEP), NameText(fs[0]), PrintValue(ms[0].value, f, n + IDENT_STEP);
      MemberConcat(a, PrintString(ms[0].name), Colon(f), v);
      if |ms| == 1 {
        JoinLast(a, t + v, Ident(f, n), [RBRACE]);
      } else {
        JoinMore(a, t + v, [COMMA], FieldsText(fs[1..]), PrintMembers(ms[1..], f, n + IDENT_STEP),
          Ident(f, n) + [RBRACE]);
      }
    }
  }

  lemma MemberConcat(a: seq<byte>, name: seq<byte>, colon: seq<byte>, v: seq<byte>)
    ensures a + name + colon + v == a + (name + colon + v)
  {
  }

  /** Printed text contains no terminator. */
  lemma {:induction false} PrintedIsNulFree(v: Value, f: Flags, n: nat)
    requires Printable(v)
    ensures NulFree(PrintValue(v, f, n))
    decreases v, 0
  {
    match v
    case Str(s) => PrintedString(s);
    case Arr(elems) =>
      PrintedElems(elems, f, n + IDENT_STEP);
      InBrackets(LBRACKET, PrintElems(elems, f, n + IDENT_STEP), Ident(f, n), RBRACKET);
    case Obj(members) =>
      PrintedMembers(members, f, n + IDENT_STEP);
      InBrackets(LBRACE, PrintMembers(members, f, n + IDENT_STEP), Ident(f, n), RBRACE);
    case _ =>
  }

  lemma InBrackets(open: byte, x: seq<byte>, w: seq<byte>, close: byte)
    requires open != 0 && close != 0 && NulFree(x) && AllWs(w)
    ensures NulFree([open] + x + w + [close])
  {
    assert NulFree(w) by {
      assert forall i :: 0 <= i < |w| ==> IsWs(w[i]);
    }
    NulFreeBoth([open], x);
    NulFreeBoth([open] + x, w);
    NulFreeBoth([open] + x + w, [close]);
  }

  lemma {:induction false} PrintedBytes(s: seq<byte>)
    requires NulFree(s)
    ensures NulFree(PrintBytes(s))
    decreases |s|
  {
    if s == [] {
    } else {
      PrintedBytes(s[1..]);
      NulFreeBoth(PrintByte(s[0]), PrintBytes(s[1..]));
    }
  }

  lemma PrintedString(s: seq<byte>)
    requires NulFree(s)
    ensures NulFree(PrintString(s))
  {
    PrintedBytes(s);
    NulFreeBoth([QUOTE], PrintBytes(s));
    NulFreeBoth([QUOTE] + PrintBytes(s), [QUOTE]);
  }

  lemma PrintedPieces(w: seq<byte>, x: seq<byte>, sep: seq<byte>, y: seq<byte>)
    requires AllWs(w) && NulFree(x) && (sep == [] || sep == [COMMA]) && NulFree(y)
    ensures NulFree(w + x + sep + y)
  {
    assert NulFree(w) by {
      assert forall i :: 0 <= i < |w| ==> IsWs(w[i]);
    }
    NulFreeBoth(w, x);
    NulFreeBoth(w + x, sep);
    NulFreeBoth(w + x + sep, y);
  }

  lemma {:induction false} PrintedElems(vs: seq<Value>, f: Flags, n: nat)
    requires PrintableElems(vs)
    ensures NulFree(PrintElems(vs, f, n))
    decreases vs, 0
  {
    hide NulFree, Ident, PrintValue, Printable;
    if vs != [] {
      PrintedIsNulFree(vs[0], f, n);
      PrintedElems(vs[1..], f, n);
      PrintedPieces(Ident(f, n), PrintValue(vs[0], f, n), if |vs| == 1 then [] else [COMMA], PrintElems(vs[1..], f, n));
    } else {
      NothingPrinted(f, n);
    }
  }

  lemma NothingPrinted(f: Flags, n: nat)
    ensures NulFree(PrintElems([], f, n)) && NulFree(PrintMembers([], f, n)) && NulFree(Colon(f))
  {
  }

  lemma {:induction false} PrintedMembers(ms: seq<Member>, f: Flags, n: nat)
    requires PrintableMembers(ms)
    ensures NulFree(PrintMembers(ms, f, n))
    decreases ms, 0
  {
    hide NulFree, Ident, PrintValue, Printable, PrintString, Colon;
    NothingPrinted(f, n);
    if ms == [] {
    } else {
      var name, colon, v := PrintString(ms[0].name), Colon(f), PrintValue(ms[0].value, f, n);
      PrintedString(ms[0].name);
      PrintedIsNulFree(ms[0].value, f, n);
      PrintedMembers(ms[1..], f, n);
      NulFreeBoth(name, colon);
      NulFreeBoth(name + colon, v);
      PrintedPieces(Ident(f, n), name + colon + v, if |ms| == 1 then [] else [COMMA], PrintMembers(ms[1..], f, n));
      MemberConcat(Ident(f, n), name, colon, v);
    }
  }

  /**
   Round trip: parsing what was printed, in any style, gives the value back, with the same types
   if and only if only negative integers are of the signed one.
   */
  lemma ParseOfPrinted(dbl: RangeTest, v: Value, f: Flags)
    requires Printable(v) && (v.Arr? || v.Obj?)
    ensures NulFree(PrintValue(v, f, 0))
    ensures ParseDocument(dbl, if v.Arr? then ArrayRoot else ObjectRoot, PrintValue(v, f, 0)) == Parsed(Reread(v))
    ensures Reread(v) == v <==> SignedIfNegative(v)
  {
    RereadIsSame(v);
    PrintedIsNulFree(v, f, 0);
    CstOfValue(dbl, v, f, 0);
    var c, t := CstOf(v, f, 0), PrintValue(v, f, 0);
    assert t == [] + t + [];
    DocumentComplete(dbl, if v.Arr? then ArrayRoot else ObjectRoot, t, [], c, []);
  }

  /** `[0]`, with a zero of the signed type. */
  lemma ZeroComesBackUnsigned(dbl: RangeTest, f: Flags)
    ensures var v := Arr([Signed(0)]);
            && NulFree(PrintValue(v, f, 0))
            && ParseDocument(dbl, ArrayRoot, PrintValue(v, f, 0)) == Parsed(Arr([Unsigned(0)])) != Parsed(v)
  {
    hide ParseDocument, PrintValue;
    var vs := [Signed(0)];
    assert vs[1..] == [] && Printable(Signed(0)) && PrintableElems(vs);
    assert RereadElems([]) == [] && RereadElems(vs) == [Unsigned(0)];
    ParseOfPrinted(dbl, Arr(vs), f);
  }
}
