/**
 Every legal text whose surrogates come in pairs is accepted, with the value that the grammar
 gives it.
 */
module JsonComplete {
  import opened Bytes
  import opened JsonValue
  import opened JsonParser
  import opened JsonGrammar

  lemma {:induction false} SkipsWs(s: seq<byte>, i: nat, w: seq<byte>)
    requires NulFree(s) && Has(s, i, w) && AllWs(w) && !IsWs(At(s, i + |w|))
    ensures SkipWs(s, i) == i + |w|
    decreases |w|
  {
    if w == [] {
    } else {
      assert s[i] == w[0] && s[i + 1..i + |w|] == w[1..];
      SkipsWs(s, i + 1, w[1..]);
    }
  }

  lemma {:induction false} SkipsDigits(s: seq<byte>, i: nat, w: seq<byte>)
    requires NulFree(s) && Has(s, i, w) && AllDigits(w) && !IsDigit(At(s, i + |w|))
    ensures SkipDigits(s, i) == i + |w|
    decreases |w|
  {
    if w == [] {
    } else {
      assert s[i] == w[0] && s[i + 1..i + |w|] == w[1..];
      SkipsDigits(s, i + 1, w[1..]);
    }
  }

  // ---- strings

  lemma ReadsHex4(s: seq<byte>, i: nat, h: seq<byte>)
    requires NulFree(s) && Has(s, i, h) && IsHex4(h)
    ensures Hex4(s, i) == Ok(HexNumber(h), i + 4)
  {
    assert s[i] == h[0] && s[i + 1] == h[1] && s[i + 2] == h[2] && s[i + 3] == h[3];
  }

  /** One pass reads one character. */
  lemma ReadsChar(s: seq<byte>, i: nat, xs: seq<Item>)
    requires NulFree(s) && xs != [] && LegalItems(xs) && Has(s, i, CharText(xs))
    requires IsHigh(xs[0]) ==> Width(xs) == 2
    ensures PassAt(s, i) == Piece(CharMeaning(xs), i + |CharText(xs)|)
  {
    hide Has, Hex4, HexNumber;
    var x := xs[0];
    HasFirst(s, i, CharText(xs));
    match x
    case Raw(b) =>
    case Short(b) =>
      HasTwo(s, i, BACKSLASH, b);
    case Unicode(hex) =>
      if IsHigh(x) {
        ReadsSurrogates(s, i, hex, xs[1].hex);
      } else {
        ReadsUnicode(s, i, hex);
      }
  }

  lemma ReadsUnicode(s: seq<byte>, i: nat, hex: seq<byte>)
    requires NulFree(s) && IsHex4(hex) && Has(s, i, [BACKSLASH, LOWER_U] + hex)
    requires !(0xD800 <= HexNumber(hex) <= 0xDBFF)
    ensures PassAt(s, i) == Piece(Utf8(HexNumber(hex)), i + 6)
  {
    hide Has, IsHex4, HexNumber, Hex4, Utf8;
    HasBoth(s, i, [BACKSLASH, LOWER_U], hex);
    HasTwo(s, i, BACKSLASH, LOWER_U);
    ReadsHex4(s, i + 2, hex);
  }

  lemma ReadsSurrogates(s: seq<byte>, i: nat, high: seq<byte>, low: seq<byte>)
    requires NulFree(s) && IsHex4(high) && IsHex4(low)
             && Has(s, i, [BACKSLASH, LOWER_U] + high + ([BACKSLASH, LOWER_U] + low))
    requires 0xD800 <= HexNumber(high) <= 0xDBFF && 0xDC00 <= HexNumber(low) <= 0xDFFF
    ensures PassAt(s, i) == Piece(Utf8(Combine(HexNumber(high), HexNumber(low))), i + 12)
  {
    hide Has, HexNumber, Hex4, Utf8, Combine;
    HasBoth(s, i, [BACKSLASH, LOWER_U] + high, [BACKSLASH, LOWER_U] + low);
    HasBoth(s, i + 6, [BACKSLASH, LOWER_U], low);
    HasBoth(s, i, [BACKSLASH, LOWER_U], high);
    HasTwo(s, i, BACKSLASH, LOWER_U);
    HasTwo(s, i + 6, BACKSLASH, LOWER_U);
    ReadsHex4(s, i + 2, high);
    ReadsHex4(s, i + 8, low);
  }

  lemma HasTwo(s: seq<byte>, i: nat, b: byte, c: byte)
    requires Has(s, i, [b, c])
    ensures i + 1 < |s| && s[i] == b && s[i + 1] == c
  {
    assert s[i..i + 2][0] == s[i] && s[i..i + 2][1] == s[i + 1];
  }

  lemma {:induction false} ReadsString(s: seq<byte>, i: nat, xs: seq<Item>, out: seq<byte>)
    requires NulFree(s) && Has(s, i, ItemsText(xs)) && LegalItems(xs) && Paired(xs)
    ensures StringFrom(s, i, out) == Ok(out + ItemsMeaning(xs), i + |ItemsText(xs)|)
    decreases |xs|
  {
    hide CharText, CharMeaning, Width, Has, LegalItem, EscapeAt;
    if xs == [] {
      HasByte(s, i, QUOTE);
      ConcatEmpty(out);
    } else {
      var rest := xs[Width(xs)..];
      CharFirst(xs);
      HasBoth(s, i, CharText(xs), ItemsText(rest));
      ReadsChar(s, i, xs);
      ReadsString(s, i + |CharText(xs)|, rest, out + CharMeaning(xs));
      ConcatAssoc(out, CharMeaning(xs), ItemsMeaning(rest));
    }
  }

  // ---- numbers

  /** A byte that would make the number before it longer. */
  predicate InNumber(b: byte) {
    IsDigit(b) || b == DOT || b == LOWER_E || b == UPPER_E
  }

  lemma ReadsFrac(s: seq<byte>, i: nat, frac: seq<byte>)
    requires NulFree(s) && Has(s, i, FracText(frac)) && AllDigits(frac)
    requires var b := At(s, i + |FracText(frac)|); !IsDigit(b) && b != DOT
    ensures SkipFrac(s, i) == Ok(frac != [], i + |FracText(frac)|)
  {
    if frac != [] {
      HasBoth(s, i, [DOT], frac);
      HasByte(s, i, DOT);
      SkipsDigits(s, i + 1, frac);
    }
  }

  lemma ReadsExponent(s: seq<byte>, i: nat, e: Exponent)
    requires NulFree(s) && Has(s, i, ExponentText(e)) && LegalExponent(e)
    requires !InNumber(At(s, i + |ExponentText(e)|))
    ensures SkipExp(s, i) == Ok(e.Exponent?, i + |ExponentText(e)|)
  {
    if e.Exponent? {
      HasBoth(s, i, [e.mark] + e.sign, e.digits);
      HasBoth(s, i, [e.mark], e.sign);
      HasByte(s, i, e.mark);
      assert s[i + 1 + |e.sign|] == e.digits[0];
      assert e.sign != [] ==> s[i + 1] == e.sign[0];
      SkipsDigits(s, i + 1 + |e.sign|, e.digits);
    }
  }

  lemma NumberLayout(s: seq<byte>, i: nat, c: Cst)
    requires c.CNumber? && Has(s, i, NumberText(c)) && c.digits != []
    ensures var k := if c.negative then i + 1 else i;
            var d := k + |c.digits|;
            var f := d + |FracText(c.frac)|;
            && (c.negative ==> Has(s, i, [MINUS])) && Has(s, k, c.digits) && Has(s, d, FracText(c.frac))
            && Has(s, f, ExponentText(c.exp)) && f + |ExponentText(c.exp)| == i + |NumberText(c)|
  {
    hide Has, FracText, ExponentText;
    var sign := if c.negative then [MINUS] else [];
    var frac, exp := FracText(c.frac), ExponentText(c.exp);
    HasBoth(s, i, sign + c.digits + frac, exp);
    HasBoth(s, i, sign + c.digits, frac);
    HasBoth(s, i, sign, c.digits);
  }

  /** No leading zero, and what stands after the digits and after the fraction. */
  lemma DigitsStart(s: seq<byte>, i: nat, c: Cst)
    requires c.CNumber? && LegalNumber(c)
    requires var k := if c.negative then i + 1 else i; Has(s, k, c.digits) && !IsDigit(At(s, k + |c.digits|))
    requires c.negative ==> Has(s, i, [MINUS])
    ensures var k := if c.negative then i + 1 else i;
            && k < |s| && (At(s, i) == MINUS <==> c.negative) && IsDigit(At(s, k))
            && !(At(s, k) == ZERO && IsDigit(At(s, k + 1)))
  {
    var k := if c.negative then i + 1 else i;
    HasFirst(s, k, c.digits);
    assert |c.digits| > 1 ==> s[k..k + |c.digits|][1] == s[k + 1];
  }

  lemma NumberBounds(s: seq<byte>, i: nat, c: Cst)
    requires c.CNumber? && LegalNumber(c)
    requires var d := i + |c.digits| + if c.negative then 1 else 0;
             var f := d + |FracText(c.frac)|;
             && Has(s, d, FracText(c.frac)) && Has(s, f, ExponentText(c.exp))
             && !InNumber(At(s, f + |ExponentText(c.exp)|))
    ensures var d := i + |c.digits| + if c.negative then 1 else 0;
            var f := d + |FracText(c.frac)|;
            !IsDigit(At(s, d)) && !IsDigit(At(s, f)) && At(s, f) != DOT
  {
    var d := i + |c.digits| + if c.negative then 1 else 0;
    HasFirst(s, d, FracText(c.frac));
    HasFirst(s, d + |FracText(c.frac)|, ExponentText(c.exp));
  }

  lemma NumberStep(dbl: RangeTest, s: seq<byte>, i: nat, k: nat, d: nat, frac: bool, f: nat, exp: bool, j: nat)
    requires NulFree(s) && i < |s| && k == (if At(s, i) == MINUS then i + 1 else i) && k < |s|
    requires !(At(s, k) == ZERO && IsDigit(At(s, k + 1))) && SkipDigits(s, k) == d > k
    requires SkipFrac(s, d) == Ok(frac, f) && SkipExp(s, f) == Ok(exp, j) && j <= |s|
    ensures Number(dbl, s, i) == NumberValue(dbl, At(s, i) == MINUS, s[k..d], !frac && !exp, s[i..j], j)
  {
    hide SkipDigits, SkipFrac, SkipExp, NumberValue, IsDigit;
  }

  lemma ReadsNumber(dbl: RangeTest, s: seq<byte>, i: nat, c: Cst)
    requires NulFree(s) && c.CNumber? && LegalNumber(c) && Has(s, i, NumberText(c)) && InRange(dbl, NumberMeaning(c))
    requires !InNumber(At(s, i + |NumberText(c)|))
    ensures Number(dbl, s, i) == Ok(NumberMeaning(c), i + |NumberText(c)|)
  {
    hide Has, NumberText, FracText, ExponentText, Decimal, SkipDigits, SkipFrac, SkipExp, Number, LegalExponent,
      InNumber;
    NumberLayout(s, i, c);
    var k := if c.negative then i + 1 else i;
    var d := k + |c.digits|;
    var f := d + |FracText(c.frac)|;
    HasSlice(s, i, NumberText(c));
    HasSlice(s, k, c.digits);
    NumberBounds(s, i, c);
    DigitsStart(s, i, c);
    SkipsDigits(s, k, c.digits);
    ReadsFrac(s, d, c.frac);
    ReadsExponent(s, f, c.exp);
    NumberStep(dbl, s, i, k, d, c.frac != [], f, c.exp.Exponent?, i + |NumberText(c)|);
    var plain := c.frac == [] && c.exp == NoExponent;
    assert Number(dbl, s, i) == NumberValue(dbl, c.negative, c.digits, plain, NumberText(c), i + |NumberText(c)|);
  }

  // ---- values

  /** The first byte of a value is none that the parser skips or takes for a bracket. */
  predicate Starts(b: byte) {
    !IsWs(b) && b != COMMA && b != COLON && b != RBRACKET && b != RBRACE
  }

  lemma FirstByte(c: Cst)
    requires Legal(c)
    ensures Text(c) != [] && Starts(Text(c)[0]) && !IsWs(Text(c)[0])
  {
    if c.CNumber? {
      assert Text(c)[0] == if c.negative then MINUS else c.digits[0];
    }
  }

  lemma {:induction false} ReadsValue(dbl: RangeTest, s: seq<byte>, i: nat, c: Cst)
    requires NulFree(s) && Legal(c) && PairedValue(c) && Has(s, i, Text(c)) && InRange(dbl, Meaning(c))
    requires c.CNumber? ==> !InNumber(At(s, i + |Text(c)|))
    ensures ParseValue(dbl, s, i) == Ok(Meaning(c), i + |Text(c)|)
    decreases c, 0
  {
    match c
    case CArray(pre, elems) => ReadsArray(dbl, s, i, pre, elems);
    case CObject(pre, fields) => ReadsObject(dbl, s, i, pre, fields);
    case _ => ReadsScalar(dbl, s, i, c);
  }

  /** What follows an opening bracket and its white space. */
  lemma Opening(dbl: RangeTest, s: seq<byte>, i: nat, j: nat)
    requires NulFree(s) && i < |s| && SkipWs(s, i + 1) == j
    ensures s[i] == LBRACKET ==>
              ParseValue(dbl, s, i) == if At(s, j) == RBRACKET then Ok(Arr([]), j + 1) else ArrayFrom(dbl, s, j, [])
    ensures s[i] == LBRACE ==>
              ParseValue(dbl, s, i) == if At(s, j) == RBRACE then Ok(Obj([]), j + 1) else ObjectFrom(dbl, s, j, [])
  {
    hide ArrayFrom, ObjectFrom, SkipWs, Literal, StringFrom, Number;
  }

  lemma NoElems()
    ensures ElemsText([]) == [RBRACKET] && FieldsText([]) == [RBRACE]
  {
  }

  lemma NoWs()
    ensures !IsWs(RBRACKET) && !IsWs(RBRACE)
  {
  }

  lemma {:induction false} ReadsArray(dbl: RangeTest, s: seq<byte>, i: nat, pre: seq<byte>, elems: seq<Elem>)
    requires NulFree(s) && AllWs(pre) && LegalElems(elems) && PairedElems(elems) && AllInRange(dbl, ElemsMeaning(elems))
    requires Has(s, i, [LBRACKET] + pre + ElemsText(elems))
    ensures ParseValue(dbl, s, i) == Ok(Arr(ElemsMeaning(elems)), i + |[LBRACKET] + pre + ElemsText(elems)|)
    decreases elems, 1
  {
    hide Has, ElemsText, LegalElems, PairedElems, AllInRange, ParseValue, ArrayFrom, SkipWs;
    var j := i + 1 + |pre|;
    BracketLayout(s, i, LBRACKET, pre, ElemsText(elems));
    HasFirst(s, j, ElemsText(elems));
    ReadsElems(dbl, s, j, elems, []);
    SkipsWs(s, i + 1, pre);
    Opening(dbl, s, i, j);
    NoElems();
    assert [] + ElemsMeaning(elems) == ElemsMeaning(elems);
    assert ParseValue(dbl, s, i).v == Arr(ElemsMeaning(elems));
  }

  lemma {:induction false} ReadsObject(dbl: RangeTest, s: seq<byte>, i: nat, pre: seq<byte>, fields: seq<Field>)
    requires NulFree(s) && AllWs(pre) && LegalFields(fields) && PairedFields(fields)
             && MembersInRange(dbl, FieldsMeaning(fields))
    requires Has(s, i, [LBRACE] + pre + FieldsText(fields))
    ensures ParseValue(dbl, s, i) == Ok(Obj(FieldsMeaning(fields)), i + |[LBRACE] + pre + FieldsText(fields)|)
    decreases fields, 1
  {
    hide Has, FieldsText, LegalFields, PairedFields, MembersInRange, ParseValue, ObjectFrom, SkipWs;
    var j := i + 1 + |pre|;
    BracketLayout(s, i, LBRACE, pre, FieldsText(fields));
    HasFirst(s, j, FieldsText(fields));
    ReadsFields(dbl, s, j, fields, []);
    SkipsWs(s, i + 1, pre);
    Opening(dbl, s, i, j);
    NoElems();
    assert [] + FieldsMeaning(fields) == FieldsMeaning(fields);
    assert ParseValue(dbl, s, i).v == Obj(FieldsMeaning(fields));
  }

  lemma BracketLayout(s: seq<byte>, i: nat, b: byte, pre: seq<byte>, t: seq<byte>)
    requires Has(s, i, [b] + pre + t)
    ensures i < |s| && s[i] == b && Has(s, i + 1, pre) && Has(s, i + 1 + |pre|, t)
  {
    HasBoth(s, i, [b] + pre, t);
    HasBoth(s, i, [b], pre);
  }

  lemma ReadsScalar(dbl: RangeTest, s: seq<byte>, i: nat, c: Cst)
    requires NulFree(s) && Legal(c) && !c.CArray? && !c.CObject? && PairedValue(c) && Has(s, i, Text(c))
             && InRange(dbl, Meaning(c))
    requires c.CNumber? ==> !InNumber(At(s, i + |Text(c)|))
    ensures ParseValue(dbl, s, i) == Ok(Meaning(c), i + |Text(c)|)
  {
    FirstByte(c);
    HasFirst(s, i, Text(c));
    match c
    case CNull => assert NULL_TEXT <= s[i..];
    case CTrue => assert TRUE_TEXT <= s[i..];
    case CFalse => assert FALSE_TEXT <= s[i..];
    case CString(items) => ReadsText(dbl, s, i, items);
    case CNumber(_, _, _, _) =>
      assert Text(c)[0] == if c.negative then MINUS else c.digits[0];
      ReadsNumber(dbl, s, i, c);
  }

  lemma ReadsText(dbl: RangeTest, s: seq<byte>, i: nat, items: seq<Item>)
    requires NulFree(s) && LegalItems(items) && Paired(items) && Has(s, i, [QUOTE] + ItemsText(items))
    ensures ParseValue(dbl, s, i) == Ok(Str(ItemsMeaning(items)), i + |[QUOTE] + ItemsText(items)|)
  {
    hide Has, ItemsText, ItemsMeaning, LegalItems, Paired, StringFrom;
    HasBoth(s, i, [QUOTE], ItemsText(items));
    HasByte(s, i, QUOTE);
    ReadsString(s, i + 1, items, []);
    assert [] + ItemsMeaning(items) == ItemsMeaning(items);
    assert ParseValue(dbl, s, i).v == Str(ItemsMeaning(items));
  }

  /** Where the pieces of an array element stand, and what comes after its white space. */
  lemma ElemLayout(s: seq<byte>, i: nat, es: seq<Elem>)
    requires es != [] && Has(s, i, ElemsText(es))
    ensures var j := i + |Text(es[0].v)|;
            var k := j + |es[0].post|;
            && Has(s, i, Text(es[0].v)) && Has(s, j, es[0].post) && k < |s|
            && (if |es| == 1 then s[k] == RBRACKET && i + |ElemsText(es)| == k + 1
                else && s[k] == COMMA && Has(s, k + 1, es[0].next)
                     && Has(s, k + 1 + |es[0].next|, ElemsText(es[1..]))
                     && i + |ElemsText(es)| == k + 1 + |es[0].next| + |ElemsText(es[1..])|)
  {
    hide Has, Text;
    var e := es[0];
    var sep := if |es| == 1 then [] else [COMMA] + e.next;
    HasBoth(s, i, Text(e.v) + e.post + sep, ElemsText(es[1..]));
    HasBoth(s, i, Text(e.v) + e.post, sep);
    HasBoth(s, i, Text(e.v), e.post);
    var k := i + |Text(e.v) + e.post|;
    if |es| == 1 {
      HasByte(s, k, RBRACKET);
    } else {
      HasBoth(s, k, [COMMA], e.next);
      HasByte(s, k, COMMA);
    }
  }

  /** The byte after a value that is followed by white space or a separator. */
  lemma AfterValue(s: seq<byte>, j: nat, post: seq<byte>)
    requires Has(s, j, post) && AllWs(post) && j + |post| < |s|
    requires var b := s[j + |post|]; b == COMMA || b == RBRACKET || b == RBRACE || b == COLON
    ensures !InNumber(At(s, j))
    ensures NulFree(s) ==> SkipWs(s, j) == j + |post|
  {
    HasFirst(s, j, post);
    if NulFree(s) {
      SkipsWs(s, j, post);
    }
  }

  lemma ArrayStep(dbl: RangeTest, s: seq<byte>, i: nat, acc: seq<Value>, v: Value, j: nat, k: nat)
    requires NulFree(s) && i <= |s| && j <= |s| && k < |s| && ParseValue(dbl, s, i) == Ok(v, j) && SkipWs(s, j) == k
    ensures s[k] == COMMA ==> ArrayFrom(dbl, s, i, acc) == ArrayFrom(dbl, s, SkipWs(s, k + 1), acc + [v])
    ensures s[k] == RBRACKET ==> ArrayFrom(dbl, s, i, acc) == Ok(Arr(acc + [v]), k + 1)
  {
    hide ParseValue, SkipWs;
  }

  lemma {:induction false} ReadsElems(dbl: RangeTest, s: seq<byte>, i: nat, es: seq<Elem>, acc: seq<Value>)
    requires NulFree(s) && LegalElems(es) && PairedElems(es) && Has(s, i, ElemsText(es))
             && AllInRange(dbl, ElemsMeaning(es))
    ensures i < |s| && !IsWs(At(s, i)) && (es == [] <==> At(s, i) == RBRACKET)
    ensures es != [] ==> ArrayFrom(dbl, s, i, acc) == Ok(Arr(acc + ElemsMeaning(es)), i + |ElemsText(es)|)
    decreases es, 0
  {
    hide Has, Text, ElemsText, Legal, PairedValue, InRange, ParseValue, InNumber, ArrayFrom, SkipWs, Meaning, NulFree,
      AllWs, IsWs;
    NoElems();
    NoWs();
    if es == [] {
      HasByte(s, i, RBRACKET);
    } else {
      var e := es[0];
      ElemLayout(s, i, es);
      var j := i + |Text(e.v)|;
      var k := j + |e.post|;
      FirstByte(e.v);
      HasFirst(s, i, Text(e.v));
      AfterValue(s, j, e.post);
      ReadsValue(dbl, s, i, e.v);
      ArrayStep(dbl, s, i, acc, Meaning(e.v), j, k);
      if |es| > 1 {
        ReadsElems(dbl, s, k + 1 + |e.next|, es[1..], acc + [Meaning(e.v)]);
        SkipsWs(s, k + 1, e.next);
        ConcatAssoc(acc, [Meaning(e.v)], ElemsMeaning(es[1..]));
        assert ArrayFrom(dbl, s, i, acc) == ArrayFrom(dbl, s, k + 1 + |e.next|, acc + [Meaning(e.v)]);
        assert ArrayFrom(dbl, s, i, acc).v == Arr(acc + ElemsMeaning(es));
        assert ArrayFrom(dbl, s, i, acc).next == i + |ElemsText(es)|;
      } else {
        ConcatEmpty([Meaning(e.v)]);
        assert ArrayFrom(dbl, s, i, acc) == Ok(Arr(acc + ElemsMeaning(es)), i + |ElemsText(es)|);
      }
    }
  }

  /** The same for an object member. */
  lemma FieldLayout(s: seq<byte>, i: nat, fs: seq<Field>)
    requires fs != [] && Has(s, i, FieldsText(fs))
    ensures var e := fs[0].elem;
            var h := i + |NameText(fs[0])|;
            var j := h + |Text(e.v)|;
            var k := j + |e.post|;
            && Has(s, i, NameText(fs[0])) && Has(s, h, Text(e.v)) && Has(s, j, e.post) && k < |s|
            && (if |fs| == 1 then s[k] == RBRACE && i + |FieldsText(fs)| == k + 1
                else && s[k] == COMMA && Has(s, k + 1, e.next)
                     && Has(s, k + 1 + |e.next|, FieldsText(fs[1..]))
                     && i + |FieldsText(fs)| == k + 1 + |e.next| + |FieldsText(fs[1..])|)
  {
    hide Has, Text, NameText;
    var e, t := fs[0].elem, NameText(fs[0]);
    var sep := if |fs| == 1 then [] else [COMMA] + e.next;
    HasBoth(s, i, t + Text(e.v) + e.post + sep, FieldsText(fs[1..]));
    HasBoth(s, i, t + Text(e.v) + e.post, sep);
    HasBoth(s, i, t + Text(e.v), e.post);
    HasBoth(s, i, t, Text(e.v));
    var k := i + |t + Text(e.v) + e.post|;
    if |fs| == 1 {
      HasByte(s, k, RBRACE);
    } else {
      HasBoth(s, k, [COMMA], e.next);
      HasByte(s, k, COMMA);
    }
  }

  lemma NameLayout(s: seq<byte>, i: nat, f: Field)
    requires Has(s, i, NameText(f))
    ensures var n := i + 1 + |ItemsText(f.name)|;
            var m := n + |f.post|;
            && i < |s| && s[i] == QUOTE && Has(s, i + 1, ItemsText(f.name)) && Has(s, n, f.post) && m < |s|
            && s[m] == COLON
            && Has(s, m + 1, f.mid) && m + 1 + |f.mid| == i + |NameText(f)|
  {
    hide Has, ItemsText;
    var a := [QUOTE] + ItemsText(f.name);
    HasBoth(s, i, a + f.post + [COLON], f.mid);
    HasBoth(s, i, a + f.post, [COLON]);
    HasBoth(s, i, a, f.post);
    HasBoth(s, i, [QUOTE], ItemsText(f.name));
    HasByte(s, i, QUOTE);
    HasByte(s, i + |a + f.post|, COLON);
  }

  lemma NameStep(s: seq<byte>, i: nat, name: seq<byte>, n: nat, m: nat, h: nat)
    requires NulFree(s) && i < |s| && s[i] == QUOTE && StringFrom(s, i + 1, []) == Ok(name, n) && n <= |s|
    requires SkipWs(s, n) == m < |s| && s[m] == COLON && SkipWs(s, m + 1) == h
    ensures NameAt(s, i) == Ok(name, h)
  {
    hide StringFrom, SkipWs;
  }

  lemma NameStarts(s: seq<byte>, i: nat, f: Field)
    requires Has(s, i, NameText(f))
    ensures i < |s| && s[i] == QUOTE && !IsWs(s[i])
  {
    HasFirst(s, i, NameText(f));
    assert NameText(f)[0] == QUOTE;
  }

  lemma ReadsName(s: seq<byte>, i: nat, f: Field)
    requires NulFree(s) && Has(s, i, NameText(f)) && LegalItems(f.name) && Paired(f.name) && AllWs(f.post)
             && AllWs(f.mid)
    requires !IsWs(At(s, i + |NameText(f)|))
    ensures NameAt(s, i) == Ok(ItemsMeaning(f.name), i + |NameText(f)|)
  {
    hide Has, ItemsText, LegalItems, Paired, NameText, ItemsMeaning, InNumber, StringFrom, SkipWs, NameAt;
    NameLayout(s, i, f);
    var n := i + 1 + |ItemsText(f.name)|;
    var m := n + |f.post|;
    assert [] + ItemsMeaning(f.name) == ItemsMeaning(f.name);
    ReadsString(s, i + 1, f.name, []);
    AfterValue(s, n, f.post);
    SkipsWs(s, m + 1, f.mid);
    NameStep(s, i, ItemsMeaning(f.name), n, m, i + |NameText(f)|);
  }

  lemma ObjectStep(dbl: RangeTest, s: seq<byte>, i: nat, acc: seq<Member>, name: seq<byte>, h: nat, v: Value, j: nat,
                   k: nat)
    requires NulFree(s) && i <= |s| && h <= |s| && j <= |s| && k < |s|
    requires NameAt(s, i) == Ok(name, h) && ParseValue(dbl, s, h) == Ok(v, j) && SkipWs(s, j) == k
    ensures s[k] == COMMA ==>
            ObjectFrom(dbl, s, i, acc) == ObjectFrom(dbl, s, SkipWs(s, k + 1), acc + [Member(name, v)])
    ensures s[k] == RBRACE ==> ObjectFrom(dbl, s, i, acc) == Ok(Obj(acc + [Member(name, v)]), k + 1)
  {
    hide ParseValue, SkipWs, NameAt;
  }

  lemma {:induction false} ReadsFields(dbl: RangeTest, s: seq<byte>, i: nat, fs: seq<Field>, acc: seq<Member>)
    requires NulFree(s) && LegalFields(fs) && PairedFields(fs) && Has(s, i, FieldsText(fs))
             && MembersInRange(dbl, FieldsMeaning(fs))
    ensures i < |s| && !IsWs(At(s, i)) && (fs == [] <==> At(s, i) == RBRACE)
    ensures fs != [] ==> ObjectFrom(dbl, s, i, acc) == Ok(Obj(acc + FieldsMeaning(fs)), i + |FieldsText(fs)|)
    decreases fs, 0
  {
    hide Has, Text, NameText, FieldsText, Legal, Paired, PairedValue, InRange, NameAt, ParseValue, InNumber, ObjectFrom,
      SkipWs, ItemsMeaning, LegalItems, Meaning, NulFree, AllWs, IsWs;
    NoElems();
    NoWs();
    if fs == [] {
      HasByte(s, i, RBRACE);
    } else {
      var f, e := fs[0], fs[0].elem;
      FieldLayout(s, i, fs);
      var h := i + |NameText(f)|;
      var j := h + |Text(e.v)|;
      var k := j + |e.post|;
      FirstByte(e.v);
      HasFirst(s, h, Text(e.v));
      NameStarts(s, i, f);
      ReadsName(s, i, f);
      AfterValue(s, j, e.post);
      ReadsValue(dbl, s, h, e.v);
      var x := Member(ItemsMeaning(f.name), Meaning(e.v));
      ObjectStep(dbl, s, i, acc, x.name, h, x.value, j, k);
      if |fs| > 1 {
        ReadsFields(dbl, s, k + 1 + |e.next|, fs[1..], acc + [x]);
        SkipsWs(s, k + 1, e.next);
        ConcatAssoc(acc, [x], FieldsMeaning(fs[1..]));
        assert ObjectFrom(dbl, s, i, acc) == ObjectFrom(dbl, s, k + 1 + |e.next|, acc + [x]);
        assert ObjectFrom(dbl, s, i, acc).v == Obj(acc + FieldsMeaning(fs));
        assert ObjectFrom(dbl, s, i, acc).next == i + |FieldsText(fs)|;
      } else {
        ConcatEmpty([x]);
        assert ObjectFrom(dbl, s, i, acc) == Ok(Obj(acc + FieldsMeaning(fs)), i + |FieldsText(fs)|);
      }
    }
  }
}
