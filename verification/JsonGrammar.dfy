/**
 The grammar of JSON texts (sections 2 to 2.5 of RFC 4627) as concrete syntax trees.  `Text`
 gives the bytes of a tree, `Meaning` its value, and `Legal` holds for the trees that the
 grammar derives.  That the escape of a high surrogate comes with that of a low one is no rule
 of the grammar; `PairedValue` says it.
 */
module JsonGrammar {
  import opened Bytes
  import opened JsonValue
  import opened JsonParser

  /** One character of a string. */
  datatype Item = Raw(b: byte) | Short(b: byte) | Unicode(hex: seq<byte>)

  /** `mark` is `e` or `E`, `sign` empty, `+` or `-`. */
  datatype Exponent = NoExponent | Exponent(mark: byte, sign: seq<byte>, digits: seq<byte>)

  /** `pre` is white space after an opening bracket; `next` is white space after a comma. */
  datatype Cst = CNull | CTrue | CFalse | CString(items: seq<Item>)
               | CNumber(negative: bool, digits: seq<byte>, frac: seq<byte>, exp: Exponent)
               | CArray(pre: seq<byte>, elems: seq<Elem>) | CObject(pre: seq<byte>, fields: seq<Field>)

  datatype Elem = Elem(v: Cst, post: seq<byte>, next: seq<byte>)

  datatype Field = Field(name: seq<Item>, post: seq<byte>, mid: seq<byte>, elem: Elem)

  // ---- text

  function ItemText(x: Item): (r: seq<byte>) {
    match x
    case Raw(b) => [b]
    case Short(b) => [BACKSLASH, b]
    case Unicode(hex) => [BACKSLASH, LOWER_U] + hex
  }

  /** The characters of a string and its closing quote. */
  function ItemsText(xs: seq<Item>): (r: seq<byte>)
    ensures |r| > 0
  {
    if xs == [] then [QUOTE] else ItemText(xs[0]) + ItemsText(xs[1..])
  }

  function ExponentText(e: Exponent): (r: seq<byte>) {
    match e
    case NoExponent => []
    case Exponent(mark, sign, digits) => [mark] + sign + digits
  }

  function FracText(frac: seq<byte>): (r: seq<byte>) {
    if frac == [] then [] else [DOT] + frac
  }

  function NumberText(c: Cst): (r: seq<byte>)
    requires c.CNumber?
  {
    (if c.negative then [MINUS] else []) + c.digits + FracText(c.frac) + ExponentText(c.exp)
  }

  function Text(c: Cst): (r: seq<byte>)
    decreases c, 0
  {
    match c
    case CNull => NULL_TEXT
    case CTrue => TRUE_TEXT
    case CFalse => FALSE_TEXT
    case CString(items) => [QUOTE] + ItemsText(items)
    case CNumber(_, _, _, _) => NumberText(c)
    case CArray(pre, elems) => [LBRACKET] + pre + ElemsText(elems)
    case CObject(pre, fields) => [LBRACE] + pre + FieldsText(fields)
  }

  /** The elements of an array, from the start of the first one, and the closing bracket. */
  function ElemsText(es: seq<Elem>): (r: seq<byte>)
    decreases es, 0
  {
    if es == [] then [RBRACKET]
    else Text(es[0].v) + es[0].post + (if |es| == 1 then [] else [COMMA] + es[0].next) + ElemsText(es[1..])
  }

  /** The name of a member and the colon. */
  function NameText(f: Field): (r: seq<byte>) {
    [QUOTE] + ItemsText(f.name) + f.post + [COLON] + f.mid
  }

  function FieldsText(fs: seq<Field>): (r: seq<byte>)
    decreases fs, 0
  {
    if fs == [] then [RBRACE]
    else NameText(fs[0]) + Text(fs[0].elem.v) + fs[0].elem.post
         + (if |fs| == 1 then [] else [COMMA] + fs[0].elem.next) + FieldsText(fs[1..])
  }

  // ---- the rules

  predicate IsHex4(s: seq<byte>) {
    |s| == 4 && forall i :: 0 <= i < 4 ==> HexValue(s[i]) < 16
  }

  function HexNumber(s: seq<byte>): (n: nat)
    requires IsHex4(s)
    ensures n < 0x1_0000
  {
    HexValue(s[0]) * 0x1000 + HexValue(s[1]) * 0x100 + HexValue(s[2]) * 0x10 + HexValue(s[3])
  }

  predicate LegalItem(x: Item) {
    match x
    case Raw(b) => b >= 0x20 && b != QUOTE && b != BACKSLASH
    case Short(b) => Unescape(b) != 0
    case Unicode(hex) => IsHex4(hex)
  }

  predicate LegalItems(xs: seq<Item>) {
    xs == [] || (LegalItem(xs[0]) && LegalItems(xs[1..]))
  }

  predicate LegalExponent(e: Exponent) {
    match e
    case NoExponent => true
    case Exponent(mark, sign, digits) =>
      && (mark == LOWER_E || mark == UPPER_E) && (sign == [] || sign == [PLUS] || sign == [MINUS])
      && digits != [] && AllDigits(digits)
  }

  predicate LegalNumber(c: Cst)
    requires c.CNumber?
  {
    && c.digits != [] && AllDigits(c.digits) && (c.digits[0] == ZERO ==> |c.digits| == 1)
    && AllDigits(c.frac) && LegalExponent(c.exp)
  }

  predicate Legal(c: Cst)
    decreases c, 0
  {
    match c
    case CString(items) => LegalItems(items)
    case CNumber(_, _, _, _) => LegalNumber(c)
    case CArray(pre, elems) => AllWs(pre) && LegalElems(elems)
    case CObject(pre, fields) => AllWs(pre) && LegalFields(fields)
    case _ => true
  }

  predicate LegalElems(es: seq<Elem>)
    decreases es, 0
  {
    es == [] || (AllWs(es[0].post) && AllWs(es[0].next) && Legal(es[0].v) && LegalElems(es[1..]))
  }

  predicate LegalFields(fs: seq<Field>)
    decreases fs, 0
  {
    fs == [] || (&& LegalItems(fs[0].name) && AllWs(fs[0].post) && AllWs(fs[0].mid)
                 && AllWs(fs[0].elem.post) && AllWs(fs[0].elem.next) && Legal(fs[0].elem.v) && LegalFields(fs[1..]))
  }

  // ---- surrogates

  predicate IsHigh(x: Item) {
    x.Unicode? && IsHex4(x.hex) && 0xD800 <= HexNumber(x.hex) <= 0xDBFF
  }

  predicate IsLow(x: Item) {
    x.Unicode? && IsHex4(x.hex) && 0xDC00 <= HexNumber(x.hex) <= 0xDFFF
  }

  /** The escape of a low surrogate follows each one of a high surrogate. */
  predicate Paired(xs: seq<Item>) {
    xs == [] || ((IsHigh(xs[0]) ==> |xs| > 1 && IsLow(xs[1])) && Paired(xs[1..]))
  }

  /** The same for every string and every name in a value. */
  predicate PairedValue(c: Cst)
    decreases c, 0
  {
    match c
    case CString(items) => Paired(items)
    case CArray(_, elems) => PairedElems(elems)
    case CObject(_, fields) => PairedFields(fields)
    case _ => true
  }

  predicate PairedElems(es: seq<Elem>)
    decreases es, 0
  {
    es == [] || (PairedValue(es[0].v) && PairedElems(es[1..]))
  }

  predicate PairedFields(fs: seq<Field>)
    decreases fs, 0
  {
    fs == [] || (Paired(fs[0].name) && PairedValue(fs[0].elem.v) && PairedFields(fs[1..]))
  }

  /** How many items make up the first character: two surrogates are one. */
  function Width(xs: seq<Item>): (n: nat)
    requires xs != []
    ensures 1 <= n <= 2 && n <= |xs|
  {
    if |xs| > 1 && IsHigh(xs[0]) && IsLow(xs[1]) then 2 else 1
  }

  function CharText(xs: seq<Item>): (r: seq<byte>)
    requires xs != []
  {
    if Width(xs) == 2 then ItemText(xs[0]) + ItemText(xs[1]) else ItemText(xs[0])
  }

  lemma CharFirst(xs: seq<Item>)
    requires xs != []
    ensures ItemsText(xs) == CharText(xs) + ItemsText(xs[Width(xs)..])
    ensures LegalItems(xs) ==> LegalItems(xs[Width(xs)..])
    ensures Paired(xs) ==> (IsHigh(xs[0]) ==> Width(xs) == 2)
    ensures (IsHigh(xs[0]) ==> Width(xs) == 2) ==> (Paired(xs) <==> Paired(xs[Width(xs)..]))
  {
    hide ItemText, IsHigh, IsLow, LegalItem;
    if Width(xs) == 2 {
      assert xs[1..][1..] == xs[2..];
      assert LegalItems(xs) ==> LegalItems(xs[1..]);
      SecondIsPaired(xs);
      ConcatAssoc(ItemText(xs[0]), ItemText(xs[1]), ItemsText(xs[2..]));
    }
  }

  lemma SecondIsPaired(xs: seq<Item>)
    requires |xs| > 1 && IsLow(xs[1])
    ensures Paired(xs) <==> Paired(xs[2..])
  {
    hide LegalItem, HexNumber, IsHex4;
    assert xs[1..][1..] == xs[2..];
    assert Paired(xs) <==> Paired(xs[1..]);
    assert Paired(xs[1..]) <==> Paired(xs[2..]);
  }

  // ---- the meaning

  function ItemMeaning(x: Item): (r: seq<byte>)
    requires LegalItem(x)
  {
    match x
    case Raw(b) => [b]
    case Short(b) => [Unescape(b)]
    case Unicode(hex) => Utf8(HexNumber(hex))
  }

  function CharMeaning(xs: seq<Item>): (r: seq<byte>)
    requires xs != [] && LegalItems(xs)
  {
    if Width(xs) == 2 then Utf8(Combine(HexNumber(xs[0].hex), HexNumber(xs[1].hex))) else ItemMeaning(xs[0])
  }

  function ItemsMeaning(xs: seq<Item>): (r: seq<byte>)
    requires LegalItems(xs)
  {
    if xs == [] then [] else
      CharFirst(xs);
      CharMeaning(xs) + ItemsMeaning(xs[Width(xs)..])
  }

  function NumberMeaning(c: Cst): (v: Value)
    requires c.CNumber? && LegalNumber(c)
  {
    var d: int := Decimal(c.digits);
    var n := if c.negative then -d else d;
    if c.frac == [] && c.exp == NoExponent && LLONG_MIN <= n <= ULLONG_MAX then IntOf(c.negative, n)
    else Double(NumberText(c))
  }

  function Meaning(c: Cst): (v: Value)
    requires Legal(c)
    decreases c, 0
  {
    match c
    case CNull => Null
    case CTrue => Bool(true)
    case CFalse => Bool(false)
    case CString(items) => Str(ItemsMeaning(items))
    case CNumber(_, _, _, _) => NumberMeaning(c)
    case CArray(_, elems) => Arr(ElemsMeaning(elems))
    case CObject(_, fields) => Obj(FieldsMeaning(fields))
  }

  function ElemsMeaning(es: seq<Elem>): (vs: seq<Value>)
    requires LegalElems(es)
    decreases es, 0
  {
    if es == [] then [] else [Meaning(es[0].v)] + ElemsMeaning(es[1..])
  }

  function FieldsMeaning(fs: seq<Field>): (ms: seq<Member>)
    requires LegalFields(fs)
    decreases fs, 0
  {
    if fs == [] then []
    else [Member(ItemsMeaning(fs[0].name), Meaning(fs[0].elem.v))] + FieldsMeaning(fs[1..])
  }

  /** Every number that has to be read by strtod is in its range. */
  predicate InRange(dbl: RangeTest, v: Value)
    decreases v, 0
  {
    match v
    case Double(text) => dbl(text)
    case Arr(elems) => AllInRange(dbl, elems)
    case Obj(members) => MembersInRange(dbl, members)
    case _ => true
  }

  predicate AllInRange(dbl: RangeTest, vs: seq<Value>)
    decreases vs, 0
  {
    vs == [] || (InRange(dbl, vs[0]) && AllInRange(dbl, vs[1..]))
  }

  predicate MembersInRange(dbl: RangeTest, ms: seq<Member>)
    decreases ms, 0
  {
    ms == [] || (InRange(dbl, ms[0].value) && MembersInRange(dbl, ms[1..]))
  }

  // ---- texts inside a text

  /** `t` stands at position `i` of `s`. */
  predicate Has(s: seq<byte>, i: nat, t: seq<byte>) {
    i + |t| <= |s| && s[i..i + |t|] == t
  }

  lemma HasBoth(s: seq<byte>, i: nat, t: seq<byte>, u: seq<byte>)
    ensures Has(s, i, t + u) <==> Has(s, i, t) && Has(s, i + |t|, u)
  {
    if i + |t + u| <= |s| {
      assert s[i..i + |t + u|] == s[i..i + |t|] + s[i + |t|..i + |t| + |u|];
      SplitConcat(t, u);
      SplitConcat(s[i..i + |t|], s[i + |t|..i + |t| + |u|]);
    }
  }

  lemma HasFirst(s: seq<byte>, i: nat, t: seq<byte>)
    requires Has(s, i, t)
    ensures i + |t| <= |s| && (t != [] ==> s[i] == t[0])
  {
    assert t != [] ==> s[i..i + |t|][0] == s[i];
  }

  lemma HasSlice(s: seq<byte>, i: nat, t: seq<byte>)
    requires Has(s, i, t)
    ensures i + |t| <= |s| && s[i..i + |t|] == t
  {
  }

  lemma HasByte(s: seq<byte>, i: nat, b: byte)
    ensures Has(s, i, [b]) <==> i < |s| && s[i] == b
  {
  }
}
