/**
 What the grammar derives and the parser refuses: a text with the escape of a high surrogate
 that no escape of a low one follows.
 */
module JsonUnpaired {
  import opened Bytes
  import opened JsonValue
  import opened JsonParser
  import opened JsonGrammar
  import opened JsonComplete

  predicate SurrogateError(e: Error) {
    e == CorruptedSurrogatePair || e == InvalidSurrogatePair
  }

  // ---- strings

  /** What can stand behind the escape of a high surrogate. */
  lemma RefusesNext(s: seq<byte>, j: nat, xs: seq<Item>)
    requires NulFree(s) && LegalItems(xs) && Has(s, j, ItemsText(xs)) && (xs != [] ==> !IsLow(xs[0]))
    ensures j < |s|
    ensures At(s, j) != BACKSLASH || At(s, j + 1) != LOWER_U
            || (Hex4(s, j + 2).Ok? && !(0xDC00 <= Hex4(s, j + 2).v <= 0xDFFF))
  {
    hide Has, Hex4, HexNumber, IsHex4;
    HasFirst(s, j, ItemsText(xs));
    if xs != [] {
      HasBoth(s, j, ItemText(xs[0]), ItemsText(xs[1..]));
      HasFirst(s, j, ItemText(xs[0]));
      match xs[0]
      case Raw(_) =>
      case Short(b) => HasTwo(s, j, BACKSLASH, b);
      case Unicode(hex) =>
        HasBoth(s, j, [BACKSLASH, LOWER_U], hex);
        ReadsHex4(s, j + 2, hex);
    }
  }

  lemma RefusesHigh(s: seq<byte>, i: nat, xs: seq<Item>)
    requires NulFree(s) && xs != [] && LegalItems(xs) && IsHigh(xs[0]) && Width(xs) == 1 && Has(s, i, ItemsText(xs))
    ensures PassAt(s, i).Failed? && SurrogateError(PassAt(s, i).e)
  {
    hide Has, Hex4, HexNumber, Utf8, Combine;
    var hex := xs[0].hex;
    HasBoth(s, i, ItemText(xs[0]), ItemsText(xs[1..]));
    HasBoth(s, i, [BACKSLASH, LOWER_U], hex);
    HasTwo(s, i, BACKSLASH, LOWER_U);
    ReadsHex4(s, i + 2, hex);
    RefusesNext(s, i + 6, xs[1..]);
  }

  lemma {:induction false} RefusesString(s: seq<byte>, i: nat, xs: seq<Item>, out: seq<byte>)
    requires NulFree(s) && Has(s, i, ItemsText(xs)) && LegalItems(xs) && !Paired(xs)
    ensures StringFrom(s, i, out).Err? && SurrogateError(StringFrom(s, i, out).e)
    decreases |xs|
  {
    hide CharText, CharMeaning, ItemText, Has, LegalItem, EscapeAt, IsHigh, IsLow, SurrogateError;
    CharFirst(xs);
    if IsHigh(xs[0]) && Width(xs) == 1 {
      RefusesHigh(s, i, xs);
    } else {
      var rest := xs[Width(xs)..];
      HasBoth(s, i, CharText(xs), ItemsText(rest));
      ReadsChar(s, i, xs);
      RefusesString(s, i + |CharText(xs)|, rest, out + CharMeaning(xs));
    }
  }

  // ---- values

  lemma {:induction false} RefusesValue(dbl: RangeTest, s: seq<byte>, i: nat, c: Cst)
    requires NulFree(s) && Legal(c) && !PairedValue(c) && Has(s, i, Text(c)) && InRange(dbl, Meaning(c))
    ensures ParseValue(dbl, s, i).Err? && SurrogateError(ParseValue(dbl, s, i).e)
    decreases c, 0
  {
    match c
    case CString(items) => RefusesText(dbl, s, i, items);
    case CArray(pre, elems) => RefusesArray(dbl, s, i, pre, elems);
    case CObject(pre, fields) => RefusesObject(dbl, s, i, pre, fields);
  }

  lemma RefusesText(dbl: RangeTest, s: seq<byte>, i: nat, items: seq<Item>)
    requires NulFree(s) && LegalItems(items) && !Paired(items) && Has(s, i, [QUOTE] + ItemsText(items))
    ensures ParseValue(dbl, s, i).Err? && SurrogateError(ParseValue(dbl, s, i).e)
  {
    hide Has, ItemsText, LegalItems, Paired, StringFrom, SurrogateError;
    HasBoth(s, i, [QUOTE], ItemsText(items));
    HasByte(s, i, QUOTE);
    RefusesString(s, i + 1, items, []);
  }

  lemma {:induction false} RefusesArray(dbl: RangeTest, s: seq<byte>, i: nat, pre: seq<byte>, elems: seq<Elem>)
    requires NulFree(s) && AllWs(pre) && LegalElems(elems) && !PairedElems(elems)
             && AllInRange(dbl, ElemsMeaning(elems))
    requires Has(s, i, [LBRACKET] + pre + ElemsText(elems))
    ensures ParseValue(dbl, s, i).Err? && SurrogateError(ParseValue(dbl, s, i).e)
    decreases elems, 1
  {
    hide Has, ElemsText, LegalElems, PairedElems, AllInRange, ParseValue, ArrayFrom, SkipWs, SurrogateError;
    var j := i + 1 + |pre|;
    BracketLayout(s, i, LBRACKET, pre, ElemsText(elems));
    HasFirst(s, j, ElemsText(elems));
    RefusesElems(dbl, s, j, elems, []);
    SkipsWs(s, i + 1, pre);
    Opening(dbl, s, i, j);
  }

  lemma {:induction false} RefusesObject(dbl: RangeTest, s: seq<byte>, i: nat, pre: seq<byte>, fields: seq<Field>)
    requires NulFree(s) && AllWs(pre) && LegalFields(fields) && !PairedFields(fields)
    requires MembersInRange(dbl, FieldsMeaning(fields)) && Has(s, i, [LBRACE] + pre + FieldsText(fields))
    ensures ParseValue(dbl, s, i).Err? && SurrogateError(ParseValue(dbl, s, i).e)
    decreases fields, 2
  {
    hide Has, FieldsText, LegalFields, PairedFields, MembersInRange, ParseValue, ObjectFrom, SkipWs, SurrogateError;
    var j := i + 1 + |pre|;
    BracketLayout(s, i, LBRACE, pre, FieldsText(fields));
    HasFirst(s, j, FieldsText(fields));
    RefusesFields(dbl, s, j, fields, []);
    SkipsWs(s, i + 1, pre);
    Opening(dbl, s, i, j);
  }

  lemma ArrayFails(dbl: RangeTest, s: seq<byte>, i: nat, acc: seq<Value>)
    requires NulFree(s) && i <= |s| && ParseValue(dbl, s, i).Err?
    ensures ArrayFrom(dbl, s, i, acc) == Err(ParseValue(dbl, s, i).e)
  {
    hide ParseValue, SkipWs;
  }

  lemma {:induction false} RefusesElems(dbl: RangeTest, s: seq<byte>, i: nat, es: seq<Elem>, acc: seq<Value>)
    requires NulFree(s) && LegalElems(es) && !PairedElems(es) && Has(s, i, ElemsText(es))
             && AllInRange(dbl, ElemsMeaning(es))
    ensures i < |s| && !IsWs(At(s, i)) && At(s, i) != RBRACKET
    ensures ArrayFrom(dbl, s, i, acc).Err? && SurrogateError(ArrayFrom(dbl, s, i, acc).e)
    decreases es, 0
  {
    hide Has, Text, ElemsText, Legal, PairedValue, InRange, ParseValue, InNumber, ArrayFrom, SkipWs, Meaning, NulFree,
      AllWs, IsWs, SurrogateError;
    var e := es[0];
    ElemLayout(s, i, es);
    var j := i + |Text(e.v)|;
    var k := j + |e.post|;
    FirstByte(e.v);
    HasFirst(s, i, Text(e.v));
    AfterValue(s, j, e.post);
    if PairedValue(e.v) {
      ReadsValue(dbl, s, i, e.v);
      ArrayStep(dbl, s, i, acc, Meaning(e.v), j, k);
      RefusesElems(dbl, s, k + 1 + |e.next|, es[1..], acc + [Meaning(e.v)]);
      SkipsWs(s, k + 1, e.next);
    } else {
      RefusesValue(dbl, s, i, e.v);
      ArrayFails(dbl, s, i, acc);
    }
  }

  lemma RefusesName(s: seq<byte>, i: nat, f: Field)
    requires NulFree(s) && Has(s, i, NameText(f)) && LegalItems(f.name) && !Paired(f.name)
    ensures i <= |s| && NameAt(s, i).Err? && SurrogateError(NameAt(s, i).e)
  {
    hide Has, ItemsText, LegalItems, Paired, NameText, StringFrom, SkipWs, SurrogateError;
    NameLayout(s, i, f);
    RefusesString(s, i + 1, f.name, []);
  }

  lemma ObjectFails(dbl: RangeTest, s: seq<byte>, i: nat, acc: seq<Member>)
    requires NulFree(s) && i <= |s|
    ensures NameAt(s, i).Err? ==> ObjectFrom(dbl, s, i, acc) == Err(NameAt(s, i).e)
    ensures NameAt(s, i).Ok? && ParseValue(dbl, s, NameAt(s, i).next).Err? ==>
              ObjectFrom(dbl, s, i, acc) == Err(ParseValue(dbl, s, NameAt(s, i).next).e)
  {
    hide ParseValue, SkipWs, NameAt;
  }

  lemma {:induction false} RefusesFields(dbl: RangeTest, s: seq<byte>, i: nat, fs: seq<Field>, acc: seq<Member>)
    requires NulFree(s) && LegalFields(fs) && !PairedFields(fs)
    requires Has(s, i, FieldsText(fs)) && MembersInRange(dbl, FieldsMeaning(fs))
    ensures i < |s| && !IsWs(At(s, i)) && At(s, i) != RBRACE
    ensures ObjectFrom(dbl, s, i, acc).Err? && SurrogateError(ObjectFrom(dbl, s, i, acc).e)
    decreases fs, 1
  {
    hide Has, Text, NameText, FieldsText, Legal, Paired, PairedValue, InRange, NameAt, ParseValue, InNumber, ObjectFrom,
      SkipWs, ItemsMeaning, LegalItems, Meaning, NulFree, AllWs, IsWs, SurrogateError;
    var f, e := fs[0], fs[0].elem;
    FieldLayout(s, i, fs);
    NameStarts(s, i, f);
    if Paired(f.name) && PairedValue(e.v) {
      var h := i + |NameText(f)|;
      var j := h + |Text(e.v)|;
      var k := j + |e.post|;
      var x := Member(ItemsMeaning(f.name), Meaning(e.v));
      FirstByte(e.v);
      HasFirst(s, h, Text(e.v));
      AfterValue(s, j, e.post);
      ReadsName(s, i, f);
      ReadsValue(dbl, s, h, e.v);
      ObjectStep(dbl, s, i, acc, x.name, h, x.value, j, k);
      RefusesFields(dbl, s, k + 1 + |e.next|, fs[1..], acc + [x]);
      SkipsWs(s, k + 1, e.next);
    } else {
      RefusesField(dbl, s, i, fs, acc);
    }
  }

  /** The surrogate stands in the name or in the value of the first member. */
  lemma {:induction false} RefusesField(dbl: RangeTest, s: seq<byte>, i: nat, fs: seq<Field>, acc: seq<Member>)
    requires NulFree(s) && LegalFields(fs) && fs != [] && !(Paired(fs[0].name) && PairedValue(fs[0].elem.v))
    requires Has(s, i, FieldsText(fs)) && MembersInRange(dbl, FieldsMeaning(fs)) && i <= |s|
    ensures ObjectFrom(dbl, s, i, acc).Err? && SurrogateError(ObjectFrom(dbl, s, i, acc).e)
    decreases fs, 0
  {
    hide Has, Text, NameText, FieldsText, Legal, Paired, PairedValue, InRange, NameAt, ParseValue, InNumber, ObjectFrom,
      SkipWs, ItemsMeaning, LegalItems, Meaning, NulFree, AllWs, IsWs, SurrogateError;
    var f, e := fs[0], fs[0].elem;
    FieldLayout(s, i, fs);
    var h := i + |NameText(f)|;
    ObjectFails(dbl, s, i, acc);
    if !Paired(f.name) {
      RefusesName(s, i, f);
    } else {
      FirstByte(e.v);
      HasFirst(s, h, Text(e.v));
      ReadsName(s, i, f);
      RefusesValue(dbl, s, h, e.v);
    }
  }
}
