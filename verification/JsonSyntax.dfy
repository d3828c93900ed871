/**
 The parser and the grammar on whole documents: what is accepted is derived by the grammar, and
 what is derived is accepted exactly when its surrogates come in pairs.
 */
module JsonSyntax {
  import opened Bytes
  import opened JsonValue
  import opened JsonParser
  import opened JsonGrammar
  import opened JsonComplete
  import opened JsonSound
  import opened JsonUnpaired

  /** `s` is `c` with white space around it, an array or an object as asked for. */
  predicate Spells(root: Root, s: seq<byte>, pre: seq<byte>, c: Cst, post: seq<byte>) {
    && s == pre + Text(c) + post && AllWs(pre) && AllWs(post) && Legal(c)
    && (if root == ArrayRoot then c.CArray? else c.CObject?)
  }

  /** The grammar derives `s` with the value `v`, and the surrogates in `s` come in pairs. */
  ghost predicate Derives(dbl: RangeTest, root: Root, s: seq<byte>, v: Value) {
    exists pre, c, post :: Spells(root, s, pre, c, post) && PairedValue(c) && Meaning(c) == v && InRange(dbl, v)
  }

  lemma DocumentComplete(dbl: RangeTest, root: Root, s: seq<byte>, pre: seq<byte>, c: Cst, post: seq<byte>)
    requires NulFree(s) && Spells(root, s, pre, c, post) && InRange(dbl, Meaning(c))
    ensures PairedValue(c) ==> ParseDocument(dbl, root, s) == Parsed(Meaning(c))
    ensures !PairedValue(c) ==> ParseDocument(dbl, root, s).Rejected? && SurrogateError(ParseDocument(dbl, root, s).e)
  {
    hide Text, Has, SkipWs, ParseValue, InRange, Meaning, Legal, PairedValue, SurrogateError;
    Pieces(s, pre, Text(c), post);
    var i, j := |pre|, |pre| + |Text(c)|;
    FirstByte(c);
    HasFirst(s, i, Text(c));
    RootByte(c);
    SkipsWs(s, 0, pre);
    if PairedValue(c) {
      ReadsValue(dbl, s, i, c);
    } else {
      RefusesValue(dbl, s, i, c);
    }
    SkipsWs(s, j, post);
  }

  lemma RootByte(c: Cst)
    requires c.CArray? || c.CObject?
    ensures Text(c) != [] && Text(c)[0] == if c.CArray? then LBRACKET else LBRACE
  {
  }

  lemma Pieces(s: seq<byte>, x: seq<byte>, y: seq<byte>, z: seq<byte>)
    requires s == x + y + z
    ensures Has(s, 0, x) && Has(s, |x|, y) && Has(s, |x| + |y|, z) && |s| == |x| + |y| + |z|
  {
  }

  lemma DocumentSound(dbl: RangeTest, root: Root, s: seq<byte>) returns (pre: seq<byte>, c: Cst, post: seq<byte>)
    requires NulFree(s) && ParseDocument(dbl, root, s).Parsed?
    ensures Spells(root, s, pre, c, post) && PairedValue(c) && InRange(dbl, Meaning(c))
    ensures ParseDocument(dbl, root, s) == Parsed(Meaning(c))
  {
    hide Text, SkipWs, ParseValue, InRange, Meaning, Legal, PairedValue;
    var i := SkipWs(s, 0);
    c := ValueSound(dbl, s, i);
    var j := i + |Text(c)|;
    var k := SkipWs(s, j);
    pre, post := s[..i], s[j..];
    SkippedWs(s, 0);
    SkippedWs(s, j);
    HasFirst(s, i, Text(c));
    Terminator(s, k);
    assert s[0..i] == pre && s[j..k] == post;
    BracketMeansRoot(c);
    assert s == pre + Text(c) + post;
  }

  lemma Terminator(s: seq<byte>, k: nat)
    requires NulFree(s) && k <= |s| && At(s, k) == NUL
    ensures k == |s|
  {
  }

  lemma BracketMeansRoot(c: Cst)
    requires Legal(c)
    ensures Text(c) != [] && (Text(c)[0] == LBRACKET <==> c.CArray?) && (Text(c)[0] == LBRACE <==> c.CObject?)
  {
    if c.CNumber? {
      assert Text(c)[0] == if c.negative then MINUS else c.digits[0];
    }
  }

  /**
   Of the texts that the grammar derives, with every number in range, exactly those are accepted
   in which the escape of each high surrogate is followed by the escape of a low one.
   */
  lemma AcceptedIffPaired(dbl: RangeTest, root: Root, s: seq<byte>, pre: seq<byte>, c: Cst, post: seq<byte>)
    requires NulFree(s) && Spells(root, s, pre, c, post) && InRange(dbl, Meaning(c))
    ensures ParseDocument(dbl, root, s).Parsed? <==> PairedValue(c)
  {
    DocumentComplete(dbl, root, s, pre, c, post);
  }

  /** `["\ud800"]`: the escape of a high surrogate alone. */
  const LONE_HIGH: seq<byte> := [LBRACKET, QUOTE, BACKSLASH, LOWER_U, 100, 56, 48, 48, QUOTE, RBRACKET]

  function LoneHigh(): (c: Cst) {
    CArray([], [Elem(CString([Unicode([100, 56, 48, 48])]), [], [])])
  }

  /** It is derived, it is not paired, and it is refused. */
  lemma LoneHighSurrogate(dbl: RangeTest)
    ensures NulFree(LONE_HIGH) && Spells(ArrayRoot, LONE_HIGH, [], LoneHigh(), []) && !PairedValue(LoneHigh())
    ensures InRange(dbl, Meaning(LoneHigh())) && ParseDocument(dbl, ArrayRoot, LONE_HIGH)
            == Rejected(CorruptedSurrogatePair)
  {
    hide Text, ParseDocument, Meaning, InRange, Legal, PairedValue;
    LoneHighText();
    LoneHighMeans(dbl);
    LoneHighFails(dbl);
    assert LONE_HIGH == [] + LONE_HIGH + [];
  }

  lemma LoneHighText()
    ensures Legal(LoneHigh()) && !PairedValue(LoneHigh()) && Text(LoneHigh()) == LONE_HIGH
  {
    var hex := [100, 56, 48, 48];
    var items := [Unicode(hex)];
    var es := [Elem(CString(items), [], [])];
    assert items[1..] == [] && es[1..] == [];
    assert IsHex4(hex) && LegalItems(items);
    assert ItemsText(items) == [BACKSLASH, LOWER_U] + hex + [QUOTE];
    assert ElemsText(es) == [QUOTE] + ItemsText(items) + [] + [] + [RBRACKET];
  }

  lemma LoneHighMeans(dbl: RangeTest)
    requires Legal(LoneHigh())
    ensures InRange(dbl, Meaning(LoneHigh()))
  {
    hide ItemsMeaning;
    var es := [Elem(CString([Unicode([100, 56, 48, 48])]), [], [])];
    assert es[1..] == [];
    assert ElemsMeaning(es)[1..] == [];
  }

  lemma LoneHighFails(dbl: RangeTest)
    requires NulFree(LONE_HIGH)
    ensures ParseDocument(dbl, ArrayRoot, LONE_HIGH) == Rejected(CorruptedSurrogatePair)
  {
    hide ParseValue, ArrayFrom, ObjectFrom;
    LoneHighInArray(dbl);
    assert SkipWs(LONE_HIGH, 0) == 0;
    assert SkipWs(LONE_HIGH, 1) == 1;
    Opening(dbl, LONE_HIGH, 0, 1);
  }

  lemma LoneHighInArray(dbl: RangeTest)
    requires NulFree(LONE_HIGH)
    ensures ArrayFrom(dbl, LONE_HIGH, 1, []) == Err(CorruptedSurrogatePair)
  {
    hide ArrayFrom, ObjectFrom, SkipWs, Number;
    assert Hex4(LONE_HIGH, 4) == Ok(0xD800, 8);
    assert PassAt(LONE_HIGH, 2) == Failed(CorruptedSurrogatePair);
    assert ParseValue(dbl, LONE_HIGH, 1) == Err(CorruptedSurrogatePair);
    ArrayFails(dbl, LONE_HIGH, 1, []);
  }

  /** A text is accepted with a value exactly when the grammar derives it with that value. */
  lemma ParsedIffDerived(dbl: RangeTest, root: Root, s: seq<byte>, v: Value)
    requires NulFree(s)
    ensures ParseDocument(dbl, root, s) == Parsed(v) <==> Derives(dbl, root, s, v)
  {
    if ParseDocument(dbl, root, s) == Parsed(v) {
      var pre, c, post := DocumentSound(dbl, root, s);
      assert Spells(root, s, pre, c, post) && PairedValue(c) && Meaning(c) == v;
    }
    if Derives(dbl, root, s, v) {
      var pre, c, post :| Spells(root, s, pre, c, post) && PairedValue(c) && Meaning(c) == v && InRange(dbl, v);
      DocumentComplete(dbl, root, s, pre, c, post);
    }
  }

  /** No text means two things. */
  lemma MeaningIsUnique(dbl: RangeTest, root: Root, s: seq<byte>, v: Value, w: Value)
    requires NulFree(s) && Derives(dbl, root, s, v) && Derives(dbl, root, s, w)
    ensures v == w
  {
    ParsedIffDerived(dbl, root, s, v);
    ParsedIffDerived(dbl, root, s, w);
  }
}
