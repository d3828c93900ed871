/**
 The binary form of a document: control bytes and length-prefixed strings, in the order in
 which the recursive writer emits them, and the trees that survive the trip.
 */
module WireFormat {
  import opened Bytes
  import opened XmlTree

  const CTRL_NODE: nat := 0
  const CTRL_ATTR: nat := 1
  const CTRL_SIBL: nat := 2
  const CTRL_END: nat := 3

  const END_BYTE: byte := 0xC0

  function KindCode(k: Kind): (c: nat)
    ensures c < 8
  {
    match k
    case Document => 0
    case Element => 1
    case Data => 2
    case Cdata => 3
    case Comment => 4
    case Declaration => 5
    case Doctype => 6
    case Pi => 7
  }

  function KindOf(c: nat): (k: Kind)
    requires c < 8
    ensures KindCode(k) == c
  {
    [Document, Element, Data, Cdata, Comment, Declaration, Doctype, Pi][c]
  }

  /** Two bits of control, six bits of node type. */
  function CtrlByte(ctrl: nat, k: nat): (b: byte)
    requires ctrl < 4 && k < 8
    ensures b / 64 == ctrl && b % 64 == k
  {
    ctrl * 64 + k
  }

  function EncodeStr(s: seq<byte>): (r: seq<byte>)
    ensures |r| == 4 + |s|
  {
    Be32(|s|) + s
  }

  function EncodeBase(ctrl: nat, k: nat, name: seq<byte>, value: seq<byte>): (r: seq<byte>)
    requires ctrl < 4 && k < 8
    ensures |r| == 9 + |name| + |value|
  {
    [CtrlByte(ctrl, k)] + EncodeStr(name) + EncodeStr(value)
  }

  function EncodeAttrs(attrs: seq<Attr>): seq<byte> {
    if attrs == [] then []
    else EncodeBase(CTRL_ATTR, 0, attrs[0].name, attrs[0].value) + EncodeAttrs(attrs[1..])
  }

  /** `top` marks the root of a message, which is closed even when it has no children. */
  function EncodeNode(t: Tree, ctrl: nat, top: bool): seq<byte>
    requires ctrl < 4
    decreases t, 1
  {
    EncodeBase(ctrl, KindCode(t.kind), t.name, t.value) + EncodeAttrs(t.attrs) + EncodeChildren(t.children, true)
    + if t.children != [] || top then [END_BYTE] else []
  }

  function EncodeChildren(ts: seq<Tree>, first: bool): seq<byte>
    decreases ts, 0
  {
    if ts == [] then []
    else EncodeNode(ts[0], if first then CTRL_NODE else CTRL_SIBL, false) + EncodeChildren(ts[1..], false)
  }

  /** One whole message. */
  function Encode(t: Tree): seq<byte> {
    EncodeNode(t, CTRL_NODE, true)
  }

  // ---- what the wire can carry

  predicate WireStr(s: seq<byte>) {
    NulFree(s) && |s| < U32 - 1
  }

  predicate NameFits(k: Kind, name: seq<byte>) {
    match k
    case Document => true
    case Element => name != []
    case Pi => name != []
    case _ => name == []
  }

  predicate WireAttr(a: Attr) {
    WireStr(a.name) && WireStr(a.value) && a.name != []
  }

  /** A node below the root of a message. */
  predicate WireNode(t: Tree) {
    && t.kind != Document && WireStr(t.name) && WireStr(t.value) && NameFits(t.kind, t.name)
    && (forall i :: 0 <= i < |t.attrs| ==> WireAttr(t.attrs[i]))
    && (forall i :: 0 <= i < |t.children| ==> WireNode(t.children[i]))
  }

  /** A message: a node, or a document without attributes. */
  predicate WireMessage(t: Tree) {
    if t.kind == Document then
      && WireStr(t.name) && WireStr(t.value) && t.attrs == []
      && (forall i :: 0 <= i < |t.children| ==> WireNode(t.children[i]))
    else WireNode(t)
  }

  // ---- the normal form that the reader builds

  /** An empty value takes the text of the first non-empty DATA child. */
  function Lift(value: seq<byte>, ts: seq<Tree>): (r: seq<byte>)
    ensures value != [] ==> r == value
    decreases |ts|
  {
    if value != [] || ts == [] then value
    else Lift(if ts[0].kind == Data then ts[0].value else value, ts[1..])
  }

  function Normal(t: Tree): (r: Tree)
    ensures r.kind == t.kind && |r.children| == |t.children|
  {
    t.(value := Lift(t.value, t.children),
       children := seq(|t.children|, i requires 0 <= i < |t.children| => Normal(t.children[i])))
  }
}
