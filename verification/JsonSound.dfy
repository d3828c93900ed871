/** Every accepted text is legal: the parser's result is the meaning of a concrete syntax tree. */
module JsonSound {
  import opened Bytes
  import opened JsonValue
  import opened JsonParser
  import opened JsonGrammar
  import opened JsonComplete

  lemma {:induction false} SkippedWs(s: seq<byte>, i: nat)
    requires NulFree(s) && i <= |s|
    ensures AllWs(s[i..SkipWs(s, i)]) && Has(s, i, s[i..SkipWs(s, i)])
    decreases |s| - i
  {
    if !IsWs(At(s, i)) {
    } else {
      SkippedWs(s, i + 1);
      var r := SkipWs(s, i);
      assert s[i..r] == [s[i]] + s[i + 1..r];
    }
  }

  lemma {:induction false} SkippedDigits(s: seq<byte>, i: nat)
    requires NulFree(s) && i <= |s|
    ensures AllDigits(s[i..SkipDigits(s, i)]) && Has(s, i, s[i..SkipDigits(s, i)])
    decreases |s| - i
  {
    if !IsDigit(At(s, i)) {
    } else {
      SkippedDigits(s, i + 1);
      var r := SkipDigits(s, i);
      assert s[i..r] == [s[i]] + s[i + 1..r];
    }
  }

  // ---- strings

  lemma Hex4Sound(s: seq<byte>, i: nat)
    requires NulFree(s) && i <= |s| && Hex4(s, i).Ok?
    ensures i + 4 <= |s| && Has(s, i, s[i..i + 4]) && IsHex4(s[i..i + 4]) && HexNumber(s[i..i + 4]) == Hex4(s, i).v
  {
    var h := s[i..i + 4];
    assert h[0] == s[i] && h[1] == s[i + 1] && h[2] == s[i + 2] && h[3] == s[i + 3];
  }

  /** What a pass takes is one character. */
  lemma PassSound(s: seq<byte>, i: nat) returns (xs: seq<Item>)
    requires NulFree(s) && i <= |s| && PassAt(s, i).Piece?
    ensures xs != [] && Width(xs) == |xs| && LegalItems(xs) && Paired(xs) && Has(s, i, CharText(xs))
    ensures PassAt(s, i) == Piece(CharMeaning(xs), i + |CharText(xs)|)
  {
    hide Has, Hex4, Utf8;
    if s[i] != BACKSLASH {
      HasByte(s, i, s[i]);
      xs := [Raw(s[i])];
    } else if s[i + 1] != LOWER_U {
      TwoBytes(s, i);
      xs := [Short(s[i + 1])];
    } else {
      xs := UnicodeSound(s, i);
      return;
    }
    assert xs[1..] == [];
  }

  lemma UnicodeSound(s: seq<byte>, i: nat) returns (xs: seq<Item>)
    requires NulFree(s) && i + 1 < |s| && s[i] == BACKSLASH && s[i + 1] == LOWER_U && EscapeAt(s, i).Piece?
    ensures xs != [] && Width(xs) == |xs| && LegalItems(xs) && Paired(xs) && Has(s, i, CharText(xs))
    ensures EscapeAt(s, i) == Piece(CharMeaning(xs), i + |CharText(xs)|)
  {
    hide Hex4, Utf8, Combine, HexNumber, IsHex4, Has, HexValue;
    Hex4Sound(s, i + 2);
    var high := s[i + 2..i + 6];
    TwoBytes(s, i);
    HasBoth(s, i, [BACKSLASH, LOWER_U], high);
    if 0xD800 <= HexNumber(high) <= 0xDBFF {
      Hex4Sound(s, i + 8);
      TwoBytes(s, i + 6);
      var low := s[i + 8..i + 12];
      HasBoth(s, i + 6, [BACKSLASH, LOWER_U], low);
      HasBoth(s, i, [BACKSLASH, LOWER_U] + high, [BACKSLASH, LOWER_U] + low);
      xs := [Unicode(high), Unicode(low)];
      assert xs[1..] == [xs[1]] && [xs[1]][1..] == [];
      assert LegalItems([xs[1]]) && Paired([xs[1]]);
    } else {
      xs := [Unicode(high)];
      assert xs[1..] == [];
    }
  }

  lemma TwoBytes(s: seq<byte>, i: nat)
    requires i + 2 <= |s|
    ensures Has(s, i, [s[i], s[i + 1]])
  {
    assert s[i..i + 2] == [s[i], s[i + 1]];
  }

  lemma {:induction false} StringSound(s: seq<byte>, i: nat, out: seq<byte>) returns (xs: seq<Item>)
    requires NulFree(s) && i <= |s| && StringFrom(s, i, out).Ok?
    ensures LegalItems(xs) && Paired(xs) && Has(s, i, ItemsText(xs))
    ensures StringFrom(s, i, out) == Ok(out + ItemsMeaning(xs), i + |ItemsText(xs)|)
    decreases |s| - i
  {
    hide CharText, CharMeaning, LegalItems, Paired, Width, Has, EscapeAt;
    if PassAt(s, i).Closed? {
      xs := [];
      NothingLegal();
      HasByte(s, i, QUOTE);
      ConcatEmpty(out);
    } else {
      var x := PassSound(s, i);
      var p := PassAt(s, i);
      var more := StringSound(s, p.next, out + p.bytes);
      xs := x + more;
      CharJoin(x, more);
      CharFirst(xs);
      HasBoth(s, i, CharText(x), ItemsText(more));
      ConcatAssoc(out, CharMeaning(x), ItemsMeaning(more));
    }
  }

  lemma NothingLegal()
    ensures LegalItems([]) && Paired([])
  {
  }

  /** A character in front of others. */
  lemma CharJoin(x: seq<Item>, more: seq<Item>)
    requires x != [] && Width(x) == |x| && LegalItems(x) && Paired(x) && LegalItems(more) && Paired(more)
    ensures var xs := x + more;
            && Width(xs) == |x| && xs[Width(xs)..] == more && CharText(xs) == CharText(x)
            && LegalItems(xs) && Paired(xs) && CharMeaning(xs) == CharMeaning(x)
  {
    hide ItemText, LegalItem, ItemMeaning, HexNumber, IsHex4, Combine, Utf8;
    var xs := x + more;
    assert xs[|x|..] == more;
    if |x| == 2 {
      assert xs[1..][1..] == more && x[1..] == [x[1]];
      assert xs[1..][0] == x[1];
    }
  }

  // ---- numbers

  lemma FracSound(s: seq<byte>, i: nat) returns (frac: seq<byte>)
    requires NulFree(s) && i <= |s| && SkipFrac(s, i).Ok?
    ensures AllDigits(frac) && Has(s, i, FracText(frac)) && SkipFrac(s, i) == Ok(frac != [], i + |FracText(frac)|)
  {
    if At(s, i) == DOT {
      SkippedDigits(s, i + 1);
      frac := s[i + 1..SkipDigits(s, i + 1)];
      HasBoth(s, i, [DOT], frac);
    } else {
      frac := [];
    }
  }

  lemma ExponentSound(s: seq<byte>, i: nat) returns (e: Exponent)
    requires NulFree(s) && i <= |s| && SkipExp(s, i).Ok?
    ensures LegalExponent(e) && Has(s, i, ExponentText(e))
            && SkipExp(s, i) == Ok(e != NoExponent, i + |ExponentText(e)|)
  {
    hide Has, SkipDigits, LegalExponent, ExponentText;
    if At(s, i) == LOWER_E || At(s, i) == UPPER_E {
      var sign := if At(s, i + 1) == PLUS || At(s, i + 1) == MINUS then [s[i + 1]] else [];
      var j := i + 1 + |sign|;
      SkippedDigits(s, j);
      HasMaybe(s, i + 1, sign);
      e := ExponentJoin(s, i, sign, s[j..SkipDigits(s, j)]);
    } else {
      e := NoExponent;
      HasMaybe(s, i, []);
      NoExponentText();
    }
  }

  lemma NoExponentText()
    ensures LegalExponent(NoExponent) && ExponentText(NoExponent) == []
  {
  }

  lemma ExponentJoin(s: seq<byte>, i: nat, sign: seq<byte>, digits: seq<byte>) returns (e: Exponent)
    requires i < |s| && (s[i] == LOWER_E || s[i] == UPPER_E) && (sign == [] || sign == [PLUS] || sign == [MINUS])
    requires Has(s, i + 1, sign) && Has(s, i + 1 + |sign|, digits) && digits != [] && AllDigits(digits)
    ensures e != NoExponent && LegalExponent(e) && Has(s, i, ExponentText(e))
            && |ExponentText(e)| == 1 + |sign| + |digits|
  {
    hide Has, AllDigits;
    e := Exponent(s[i], sign, digits);
    HasByte(s, i, s[i]);
    HasBoth(s, i, [s[i]], sign);
    HasBoth(s, i, [s[i]] + sign, digits);
  }

  lemma HasMaybe(s: seq<byte>, i: nat, t: seq<byte>)
    requires i + |t| <= |s| && (t == [] || t == [s[i]])
    ensures Has(s, i, t)
  {
  }

  lemma NumberSound(dbl: RangeTest, s: seq<byte>, i: nat) returns (c: Cst)
    requires NulFree(s) && i <= |s| && Number(dbl, s, i).Ok?
    ensures c.CNumber? && LegalNumber(c) && Has(s, i, NumberText(c)) && InRange(dbl, NumberMeaning(c))
    ensures Number(dbl, s, i) == Ok(NumberMeaning(c), i + |NumberText(c)|)
  {
    hide Has, FracText, ExponentText, SkipFrac, SkipExp, LegalExponent, Decimal;
    var k := if At(s, i) == MINUS then i + 1 else i;
    var d := SkipDigits(s, k);
    SkippedDigits(s, k);
    var digits := s[k..d];
    var frac := FracSound(s, d);
    var f := d + |FracText(frac)|;
    var exp := ExponentSound(s, f);
    c := CNumber(At(s, i) == MINUS, digits, frac, exp);
    NoLeadingZero(s, k, d);
    HasByte(s, i, MINUS);
    NumberJoin(s, i, c);
    HasSlice(s, i, NumberText(c));
    NumberStep(dbl, s, i, k, d, frac != [], f, exp != NoExponent, i + |NumberText(c)|);
  }

  lemma NoLeadingZero(s: seq<byte>, k: nat, d: nat)
    requires NulFree(s) && k < d <= |s| && AllDigits(s[k..d]) && !(At(s, k) == ZERO && IsDigit(At(s, k + 1)))
    ensures s[k..d][0] == ZERO ==> |s[k..d]| == 1
  {
    assert d > k + 1 ==> s[k..d][1] == s[k + 1];
  }

  lemma NumberJoin(s: seq<byte>, i: nat, c: Cst)
    requires c.CNumber? && (c.negative ==> Has(s, i, [MINUS]))
    requires var k := if c.negative then i + 1 else i;
             && Has(s, k, c.digits) && Has(s, k + |c.digits|, FracText(c.frac))
             && Has(s, k + |c.digits| + |FracText(c.frac)|, ExponentText(c.exp))
    ensures Has(s, i, NumberText(c))
  {
    hide Has, FracText, ExponentText;
    var sign := if c.negative then [MINUS] else [];
    var frac, exp := FracText(c.frac), ExponentText(c.exp);
    HasNothing(s, i, c);
    HasBoth(s, i, sign + c.digits + frac, exp);
    HasBoth(s, i, sign + c.digits, frac);
    HasBoth(s, i, sign, c.digits);
  }

  lemma HasNothing(s: seq<byte>, i: nat, c: Cst)
    requires c.CNumber? && Has(s, if c.negative then i + 1 else i, c.digits)
    ensures !c.negative ==> Has(s, i, [])
  {
  }

  // ---- values

  lemma {:induction false} ValueSound(dbl: RangeTest, s: seq<byte>, i: nat) returns (c: Cst)
    requires NulFree(s) && i <= |s| && ParseValue(dbl, s, i).Ok?
    ensures Legal(c) && PairedValue(c) && Has(s, i, Text(c)) && InRange(dbl, Meaning(c))
    ensures ParseValue(dbl, s, i) == Ok(Meaning(c), i + |Text(c)|)
    decreases |s| - i, 2
  {
    var b := At(s, i);
    if b == LBRACKET || b == LBRACE {
      c := BracketSound(dbl, s, i);
    } else {
      c := ScalarSound(dbl, s, i);
    }
  }

  lemma ScalarSound(dbl: RangeTest, s: seq<byte>, i: nat) returns (c: Cst)
    requires NulFree(s) && i <= |s| && ParseValue(dbl, s, i).Ok? && At(s, i) != LBRACKET && At(s, i) != LBRACE
    ensures Legal(c) && PairedValue(c) && Has(s, i, Text(c)) && InRange(dbl, Meaning(c))
    ensures ParseValue(dbl, s, i) == Ok(Meaning(c), i + |Text(c)|)
  {
    hide Number, NumberText, NumberMeaning, StringFrom, ItemsText, ItemsMeaning, LegalNumber, LegalItems, Paired;
    var b := At(s, i);
    if b == 110 || b == 116 || b == 102 {
      c := if b == 110 then CNull else if b == 116 then CTrue else CFalse;
      assert Text(c) <= s[i..];
    } else if b == QUOTE {
      var xs := StringSound(s, i + 1, []);
      HasByte(s, i, QUOTE);
      HasBoth(s, i, [QUOTE], ItemsText(xs));
      ConcatEmpty(ItemsMeaning(xs));
      c := CString(xs);
    } else {
      c := NumberSound(dbl, s, i);
    }
  }

  lemma {:induction false} BracketSound(dbl: RangeTest, s: seq<byte>, i: nat) returns (c: Cst)
    requires NulFree(s) && i < |s| && ParseValue(dbl, s, i).Ok? && (s[i] == LBRACKET || s[i] == LBRACE)
    ensures Legal(c) && PairedValue(c) && Has(s, i, Text(c)) && InRange(dbl, Meaning(c))
    ensures ParseValue(dbl, s, i) == Ok(Meaning(c), i + |Text(c)|)
    decreases |s| - i, 1
  {
    hide Has, ParseValue, ArrayFrom, ObjectFrom, SkipWs;
    var j := SkipWs(s, i + 1);
    SkippedWs(s, i + 1);
    Opening(dbl, s, i, j);
    HasByte(s, i, s[i]);
    HasBoth(s, i, [s[i]], s[i + 1..j]);
    if s[i] == LBRACKET {
      c := ArraySound(dbl, s, i, j);
    } else {
      c := ObjectSound(dbl, s, i, j);
    }
  }

  lemma {:induction false} ArraySound(dbl: RangeTest, s: seq<byte>, i: nat, j: nat) returns (c: Cst)
    requires NulFree(s) && i < j <= |s| && AllWs(s[i + 1..j]) && Has(s, i, [LBRACKET] + s[i + 1..j])
    requires ParseValue(dbl, s, i).Ok?
    requires ParseValue(dbl, s, i) == if At(s, j) == RBRACKET then Ok(Arr([]), j + 1) else ArrayFrom(dbl, s, j, [])
    ensures Legal(c) && PairedValue(c) && Has(s, i, Text(c)) && InRange(dbl, Meaning(c))
    ensures ParseValue(dbl, s, i) == Ok(Meaning(c), i + |Text(c)|)
    decreases |s| - i, 0
  {
    hide Has, ParseValue, ArrayFrom, LegalElems, PairedElems, AllInRange, AllWs;
    var pre, es := s[i + 1..j], [];
    NoElems();
    if At(s, j) == RBRACKET {
      HasByte(s, j, RBRACKET);
      NothingMeant(dbl);
    } else {
      es := ElemsSound(dbl, s, j, []);
      ConcatEmpty(ElemsMeaning(es));
    }
    HasBoth(s, i, [LBRACKET] + pre, ElemsText(es));
    c := CArray(pre, es);
  }

  lemma NothingMeant(dbl: RangeTest)
    ensures LegalElems([]) && PairedElems([]) && AllInRange(dbl, [])
    ensures LegalFields([]) && PairedFields([]) && MembersInRange(dbl, [])
  {
  }

  lemma {:induction false} ObjectSound(dbl: RangeTest, s: seq<byte>, i: nat, j: nat) returns (c: Cst)
    requires NulFree(s) && i < j <= |s| && AllWs(s[i + 1..j]) && Has(s, i, [LBRACE] + s[i + 1..j])
    requires ParseValue(dbl, s, i).Ok?
    requires ParseValue(dbl, s, i) == if At(s, j) == RBRACE then Ok(Obj([]), j + 1) else ObjectFrom(dbl, s, j, [])
    ensures Legal(c) && PairedValue(c) && Has(s, i, Text(c)) && InRange(dbl, Meaning(c))
    ensures ParseValue(dbl, s, i) == Ok(Meaning(c), i + |Text(c)|)
    decreases |s| - i, 0
  {
    hide Has, ParseValue, ObjectFrom, LegalFields, PairedFields, MembersInRange, AllWs;
    var pre, fs := s[i + 1..j], [];
    NoElems();
    if At(s, j) == RBRACE {
      HasByte(s, j, RBRACE);
      NothingMeant(dbl);
    } else {
      fs := FieldsSound(dbl, s, j, []);
      ConcatEmpty(FieldsMeaning(fs));
    }
    HasBoth(s, i, [LBRACE] + pre, FieldsText(fs));
    c := CObject(pre, fs);
  }

  lemma ArrayOk(dbl: RangeTest, s: seq<byte>, i: nat, acc: seq<Value>)
    requires NulFree(s) && i <= |s| && ArrayFrom(dbl, s, i, acc).Ok?
    ensures ParseValue(dbl, s, i).Ok?
    ensures var k := SkipWs(s, ParseValue(dbl, s, i).next); k < |s| && (s[k] == COMMA || s[k] == RBRACKET)
  {
    hide ParseValue, SkipWs;
  }

  lemma {:induction false} ElemsSound(dbl: RangeTest, s: seq<byte>, i: nat, acc: seq<Value>) returns (es: seq<Elem>)
    requires NulFree(s) && i <= |s| && ArrayFrom(dbl, s, i, acc).Ok?
    ensures es != [] && LegalElems(es) && PairedElems(es) && Has(s, i, ElemsText(es))
            && AllInRange(dbl, ElemsMeaning(es))
    ensures ArrayFrom(dbl, s, i, acc) == Ok(Arr(acc + ElemsMeaning(es)), i + |ElemsText(es)|)
    decreases |s| - i, 3
  {
    hide Has, Text, Legal, PairedValue, Meaning, InRange, ParseValue, SkipWs, ArrayFrom;
    ArrayOk(dbl, s, i, acc);
    var c := ValueSound(dbl, s, i);
    var v := Meaning(c);
    var j := i + |Text(c)|;
    var k := SkipWs(s, j);
    var post := s[j..k];
    ArrayStep(dbl, s, i, acc, v, j, k);
    SkippedWs(s, j);
    HasByte(s, k, s[k]);
    NoElems();
    if s[k] == COMMA {
      var m := SkipWs(s, k + 1);
      SkippedWs(s, k + 1);
      var more := ElemsSound(dbl, s, m, acc + [v]);
      es := [Elem(c, post, s[k + 1..m])] + more;
      ElemsJoin(s, i, es);
      ConcatAssoc(acc, [v], ElemsMeaning(more));
    } else {
      es := [Elem(c, post, [])];
      ElemsJoin(s, i, es);
      ConcatEmpty([v]);
    }
  }

  /** The pieces of an array element put together. */
  lemma ElemsJoin(s: seq<byte>, i: nat, es: seq<Elem>)
    requires es != []
    requires var j := i + |Text(es[0].v)|;
             var k := j + |es[0].post|;
             && Has(s, i, Text(es[0].v)) && Has(s, j, es[0].post)
             && (if |es| == 1 then Has(s, k, [RBRACKET])
                 else && Has(s, k, [COMMA]) && Has(s, k + 1, es[0].next)
                      && Has(s, k + 1 + |es[0].next|, ElemsText(es[1..])))
    ensures Has(s, i, ElemsText(es))
    ensures |ElemsText(es)| == |Text(es[0].v)| + |es[0].post| + 1
                               + if |es| == 1 then 0 else |es[0].next| + |ElemsText(es[1..])|
  {
    hide Has, Text;
    var e := es[0];
    var sep := if |es| == 1 then [] else [COMMA] + e.next;
    var k := i + |Text(e.v) + e.post|;
    NoElems();
    HasEmpty(s, k, [RBRACKET]);
    HasBoth(s, k, [COMMA], e.next);
    HasBoth(s, i, Text(e.v), e.post);
    HasBoth(s, i, Text(e.v) + e.post, sep);
    HasBoth(s, i, Text(e.v) + e.post + sep, ElemsText(es[1..]));
  }

  lemma HasEmpty(s: seq<byte>, i: nat, t: seq<byte>)
    ensures Has(s, i, t) ==> Has(s, i, [])
  {
  }

  lemma NameSound(s: seq<byte>, i: nat, c: Cst, post: seq<byte>, next: seq<byte>) returns (f: Field)
    requires NulFree(s) && i <= |s| && NameAt(s, i).Ok?
    ensures f.elem == Elem(c, post, next) && LegalItems(f.name) && Paired(f.name) && AllWs(f.post) && AllWs(f.mid)
            && Has(s, i, NameText(f))
    ensures NameAt(s, i) == Ok(ItemsMeaning(f.name), i + |NameText(f)|)
  {
    hide Has, ItemsText, ItemsMeaning, LegalItems, Paired, StringFrom, SkipWs;
    var xs := StringSound(s, i + 1, []);
    ConcatEmpty(ItemsMeaning(xs));
    var n := i + 1 + |ItemsText(xs)|;
    var m := SkipWs(s, n);
    SkippedWs(s, n);
    SkippedWs(s, m + 1);
    f := Field(xs, s[n..m], s[m + 1..SkipWs(s, m + 1)], Elem(c, post, next));
    var a := [QUOTE] + ItemsText(xs);
    HasByte(s, i, QUOTE);
    HasByte(s, m, COLON);
    HasBoth(s, i, [QUOTE], ItemsText(xs));
    HasBoth(s, i, a, f.post);
    HasBoth(s, i, a + f.post, [COLON]);
    HasBoth(s, i, a + f.post + [COLON], f.mid);
  }

  lemma ObjectOk(dbl: RangeTest, s: seq<byte>, i: nat, acc: seq<Member>)
    requires NulFree(s) && i <= |s| && ObjectFrom(dbl, s, i, acc).Ok?
    ensures NameAt(s, i).Ok? && ParseValue(dbl, s, NameAt(s, i).next).Ok?
    ensures var k := SkipWs(s, ParseValue(dbl, s, NameAt(s, i).next).next); k < |s| && (s[k] == COMMA || s[k] == RBRACE)
  {
    hide ParseValue, SkipWs, NameAt;
  }

  lemma {:induction false} FieldsSound(dbl: RangeTest, s: seq<byte>, i: nat, acc: seq<Member>) returns (fs: seq<Field>)
    requires NulFree(s) && i <= |s| && ObjectFrom(dbl, s, i, acc).Ok?
    ensures fs != [] && LegalFields(fs) && PairedFields(fs) && Has(s, i, FieldsText(fs))
            && MembersInRange(dbl, FieldsMeaning(fs))
    ensures ObjectFrom(dbl, s, i, acc) == Ok(Obj(acc + FieldsMeaning(fs)), i + |FieldsText(fs)|)
    decreases |s| - i, 3
  {
    hide Has, Text, Legal, Paired, PairedValue, Meaning, InRange, ParseValue, SkipWs, NameAt, NameText, LegalItems,
      ItemsMeaning, ObjectFrom;
    ObjectOk(dbl, s, i, acc);
    var h := NameAt(s, i).next;
    var c := ValueSound(dbl, s, h);
    var j := h + |Text(c)|;
    var k := SkipWs(s, j);
    var post := s[j..k];
    ObjectStep(dbl, s, i, acc, NameAt(s, i).v, h, Meaning(c), j, k);
    SkippedWs(s, j);
    HasByte(s, k, s[k]);
    NoElems();
    if s[k] == COMMA {
      var m := SkipWs(s, k + 1);
      SkippedWs(s, k + 1);
      var f := NameSound(s, i, c, post, s[k + 1..m]);
      var x := Member(ItemsMeaning(f.name), Meaning(c));
      var more := FieldsSound(dbl, s, m, acc + [x]);
      fs := [f] + more;
      FieldsJoin(s, i, fs);
      ConcatAssoc(acc, [x], FieldsMeaning(more));
    } else {
      var f := NameSound(s, i, c, post, []);
      fs := [f];
      FieldsJoin(s, i, fs);
      ConcatEmpty([Member(ItemsMeaning(f.name), Meaning(c))]);
    }
  }

  /** The pieces of an object member put together. */
  lemma FieldsJoin(s: seq<byte>, i: nat, fs: seq<Field>)
    requires fs != []
    requires var e := fs[0].elem;
             var h := i + |NameText(fs[0])|;
             var j := h + |Text(e.v)|;
             var k := j + |e.post|;
             && Has(s, i, NameText(fs[0])) && Has(s, h, Text(e.v)) && Has(s, j, e.post)
             && (if |fs| == 1 then Has(s, k, [RBRACE])
                 else Has(s, k, [COMMA]) && Has(s, k + 1, e.next) && Has(s, k + 1 + |e.next|, FieldsText(fs[1..])))
    ensures Has(s, i, FieldsText(fs))
    ensures var e := fs[0].elem;
            |FieldsText(fs)| == |NameText(fs[0])| + |Text(e.v)| + |e.post| + 1
                              + if |fs| == 1 then 0 else |e.next| + |FieldsText(fs[1..])|
  {
    hide Has, Text, NameText;
    var e, t := fs[0].elem, NameText(fs[0]);
    var sep := if |fs| == 1 then [] else [COMMA] + e.next;
    var k := i + |t + Text(e.v) + e.post|;
    NoElems();
    HasEmpty(s, k, [RBRACE]);
    HasBoth(s, k, [COMMA], e.next);
    HasBoth(s, i, t, Text(e.v));
    HasBoth(s, i, t + Text(e.v), e.post);
    HasBoth(s, i, t + Text(e.v) + e.post, sep);
    HasBoth(s, i, t + Text(e.v) + e.post + sep, FieldsText(fs[1..]));
  }
}
