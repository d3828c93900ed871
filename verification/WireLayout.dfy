/**
 The bytes of a message, control byte by control byte and length by length, and one message
 with all its bytes written out.
 */
module WireLayout {
  import opened Bytes
  import opened XmlTree
  import opened WireFormat
  import opened WireRoundTrip

  /** The node types by number, in the order of the enumeration that both sides compile. */
  const KINDS: seq<Kind> := [Document, Element, Data, Cdata, Comment, Declaration, Doctype, Pi]

  /** The control bytes of the four commands. */
  lemma ControlBytes(k: nat, name: seq<byte>, value: seq<byte>)
    requires k < 8
    ensures KindCode(KINDS[k]) == k && KindOf(k) == KINDS[k]
    ensures EncodeBase(CTRL_NODE, k, name, value)[0] == k
    ensures EncodeBase(CTRL_ATTR, 0, name, value)[0] == 0x40
    ensures EncodeBase(CTRL_SIBL, k, name, value)[0] == 0x80 + k
    ensures CtrlByte(CTRL_END, 0) == END_BYTE == 0xC0
  {
  }

  /** A string has four bytes of length, the most significant first, in front of its own. */
  lemma StringLayout(s: seq<byte>)
    requires |s| < U32
    ensures var b := EncodeStr(s);
            && |b| == 4 + |s| && b[4..] == s
            && b[0] as int * 0x100_0000 + b[1] as int * 0x1_0000 + b[2] as int * 0x100 + b[3] as int == |s|
  {
    hide Be32;
    Be32Layout(|s|);
    SplitConcat(Be32(|s|), s);
  }

  /** What a string on the wire may be: one byte less than its length field could say. */
  lemma LongestString(s: seq<byte>)
    ensures WireStr(s) <==> |s| <= 4_294_967_294 && 0 !in s
  {
  }

  /** A command has its control byte, then the name, then the value. */
  lemma BaseLayout(ctrl: nat, k: nat, name: seq<byte>, value: seq<byte>)
    requires ctrl < 4 && k < 8
    ensures var b := EncodeBase(ctrl, k, name, value);
            && |b| == 1 + (4 + |name|) + (4 + |value|) && b[0] == 0x40 * ctrl + k
            && b[1..5 + |name|] == EncodeStr(name) && b[5 + |name|..] == EncodeStr(value)
  {
  }

  /** The first byte of a message is the number of its node type. */
  lemma FirstByte(t: Tree)
    ensures Encode(t) != [] && Encode(t)[0] == match t.kind
                                               case Document => 0
                                               case Element => 1
                                               case Data => 2
                                               case Cdata => 3
                                               case Comment => 4
                                               case Declaration => 5
                                               case Doctype => 6
                                               case Pi => 7
  {
    hide EncodeAttrs, EncodeChildren, EncodeStr;
    BaseLayout(CTRL_NODE, KindCode(t.kind), t.name, t.value);
  }

  /** The last byte of a message closes it. */
  lemma LastByte(t: Tree)
    ensures Encode(t) != [] && Encode(t)[|Encode(t)| - 1] == 0xC0
  {
    hide EncodeBase, EncodeAttrs, EncodeChildren;
  }

  /** Which node types have names. */
  lemma NamesOfKinds(name: seq<byte>)
    ensures forall k: nat :: k < 8 ==>
              (NameFits(KINDS[k], name) <==> k == 0 || (if k == 1 || k == 7 then name != [] else name == []))
  {
  }

  // ---- a message written out

  function TextNode(s: seq<byte>): Tree {
    Tree(Data, [], s, [], [])
  }

  /** An element with an attribute, a text and a sibling that is empty. */
  function Sample(): Tree {
    Tree(Element, Ascii("a"), [], [Attr(Ascii("id"), Ascii("7"))],
      [TextNode(Ascii("xy")), Tree(Element, Ascii("b"), [], [], [])])
  }

  const SAMPLE_HEAD: seq<byte> := [0x01, 0, 0, 0, 1, 0x61, 0, 0, 0, 0]
  const SAMPLE_ATTR: seq<byte> := [0x40, 0, 0, 0, 2, 0x69, 0x64, 0, 0, 0, 1, 0x37]
  const SAMPLE_TEXT: seq<byte> := [0x02, 0, 0, 0, 0, 0, 0, 0, 2, 0x78, 0x79]
  const SAMPLE_SIBLING: seq<byte> := [0x81, 0, 0, 0, 1, 0x62, 0, 0, 0, 0]

  lemma SampleParts()
    ensures EncodeBase(CTRL_NODE, 1, Ascii("a"), []) == SAMPLE_HEAD
    ensures EncodeBase(CTRL_ATTR, 0, Ascii("id"), Ascii("7")) == SAMPLE_ATTR
    ensures EncodeBase(CTRL_NODE, 2, [], Ascii("xy")) == SAMPLE_TEXT
    ensures EncodeBase(CTRL_SIBL, 1, Ascii("b"), []) == SAMPLE_SIBLING
  {
  }

  /** What is sent for it. */
  lemma SampleOnTheWire()
    ensures Encode(Sample()) == SAMPLE_HEAD + SAMPLE_ATTR + SAMPLE_TEXT + SAMPLE_SIBLING + [0xC0]
  {
    hide EncodeBase;
    SampleParts();
    var t := Sample();
    var x, y := t.children[0], t.children[1];
    assert t.attrs[1..] == [] && t.children[1..] == [y] && [y][1..] == [];
    assert EncodeAttrs(t.attrs) == SAMPLE_ATTR;
    assert EncodeNode(x, CTRL_NODE, false) == SAMPLE_TEXT;
    assert EncodeNode(y, CTRL_SIBL, false) == SAMPLE_SIBLING;
    assert EncodeChildren([y], false) == SAMPLE_SIBLING;
    assert EncodeChildren(t.children, true) == SAMPLE_TEXT + SAMPLE_SIBLING;
  }

  /** What arrives: below a document, with the text lifted into the element. */
  lemma SampleArrives()
    ensures WireMessage(Sample())
    ensures Delivered(Sample()) == Tree(Document, [], [], [], [Sample().(value := [0x78, 0x79])])
  {
    var t := Sample();
    var x, y := t.children[0], t.children[1];
    var d := Tree(Document, [], [], [], [t]);
    assert t.children[1..] == [y] && [y][1..] == [] && d.children[1..] == [];
    assert Ascii("xy") == [0x78, 0x79];
    assert Normal(x) == x by {
      assert Normal(x).children == [];
    }
    assert Normal(y) == y by {
      assert Normal(y).children == [];
    }
    assert Normal(t).children == t.children;
    assert Lift([], t.children) == [0x78, 0x79];
    assert Normal(t) == t.(value := [0x78, 0x79]);
    assert Normal(d).children == [Normal(t)];
    assert Lift([], d.children) == [];
  }
}
