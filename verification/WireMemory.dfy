/** What the reader asks memory for while it reads a message: no more than the tree that was sent decides. */
module WireMemory {
  import opened Bytes
  import opened XmlTree
  import opened WireFormat
  import opened WireReader
  import opened WireRoundTrip

  /** An empty string takes no memory. */
  function CharsOf(s: seq<byte>): (r: seq<Request>) {
    if s == [] then [] else [Chars(|s| + 1)]
  }

  function CellOf(kind: Kind): (r: seq<Request>) {
    if kind == Document then [] else [NodeCell]
  }

  /** Strings and cell of a node, its attributes, its children; the root has its cell already. */
  function ReadRequests(t: Tree): (r: seq<Request>)
    decreases t, 0
  {
    CharsOf(t.name) + CharsOf(t.value) + CellOf(t.kind) + ReadAttrRequests(t.attrs) + ReadKidRequests(t.children)
  }

  function ReadAttrRequests(attrs: seq<Attr>): (r: seq<Request>) {
    if attrs == [] then []
    else CharsOf(attrs[0].name) + CharsOf(attrs[0].value) + [AttrCell] + ReadAttrRequests(attrs[1..])
  }

  function ReadKidRequests(ts: seq<Tree>): (r: seq<Request>)
    decreases ts, 0
  {
    if ts == [] then [] else ReadRequests(ts[0]) + ReadKidRequests(ts[1..])
  }

  // ---- record by record

  /** What is left behind the first control byte and its strings, if it has any. */
  function After(input: seq<byte>): (rest: seq<byte>)
    requires input != []
    ensures |rest| < |input|
  {
    if input[0] / 64 == CTRL_END then input[1..]
    else
      match TakePair(input[1..])
      case NoPair => []
      case Pair(_, _, rest) => rest
  }

  /** The requests for the records in the first `m` bytes. */
  function Scan(input: seq<byte>, m: int): (r: seq<Request>)
    decreases |input|
  {
    if m <= 0 || input == [] then []
    else StepRequests(input) + Scan(After(input), m - (|input| - |After(input)|))
  }

  lemma NextIsAfter(c: Cursor, top: nat, input: seq<byte>)
    requires Ready(c)
    ensures var s := StepOn(c, top, input);
            && (s.Next? || s.Halt? ==> input != [] && s.rest == After(input))
            && (s.Halt? ==> StepRequests(input) == [])
  {
    hide TakePair, PairRequests;
  }

  /** The requests of a run are those of the bytes that it reads. */
  lemma {:induction false} ScanIsRun(c: Cursor, top: nat, input: seq<byte>)
    requires Ready(c) && Run(c, top, input).Halt?
    ensures RunRequests(c, top, input) == Scan(input, |input| - |Run(c, top, input).rest|)
    decreases |input|
  {
    hide StepOn, StepRequests, After;
    RunPass(c, top, input);
    NextIsAfter(c, top, input);
    var s := StepOn(c, top, input);
    if s.Next? {
      ScanIsRun(s.cursor, top, s.rest);
    }
  }

  lemma StrRequestsOfEncoded(s: seq<byte>, rest: seq<byte>)
    requires WireStr(s)
    ensures StrRequests(EncodeStr(s) + rest) == CharsOf(s)
  {
    FromBe32OfBe32(|s|);
    hide FromBe32, Be32;
    assert (EncodeStr(s) + rest)[..4] == Be32(|s|);
  }

  lemma BaseScan(ctrl: nat, k: nat, name: seq<byte>, value: seq<byte>, rest: seq<byte>)
    requires ctrl < 3 && k < 8 && WireStr(name) && WireStr(value)
    ensures var input := EncodeBase(ctrl, k, name, value) + rest;
            && input != [] && After(input) == rest
            && StepRequests(input) == CharsOf(name) + CharsOf(value)
                                      + if ctrl == CTRL_ATTR then [AttrCell] else CellOf(KindOf(k))
  {
    hide TakePair, TakeStr, StrRequests, CharsOf, EncodeStr;
    BaseSplit(ctrl, k, name, value, rest);
    var input, more := EncodeBase(ctrl, k, name, value) + rest, EncodeStr(value) + rest;
    assert input[1..] == EncodeStr(name) + more;
    TakeStrOfEncoded(name, more);
    StrRequestsOfEncoded(name, more);
    StrRequestsOfEncoded(value, rest);
  }

  /** One record in front of others. */
  lemma ScanBase(ctrl: nat, k: nat, name: seq<byte>, value: seq<byte>, rest: seq<byte>, m: nat)
    requires ctrl < 3 && k < 8 && WireStr(name) && WireStr(value)
    ensures var b := EncodeBase(ctrl, k, name, value);
            Scan(b + rest, |b| + m) == CharsOf(name) + CharsOf(value)
                                       + (if ctrl == CTRL_ATTR then [AttrCell] else CellOf(KindOf(k))) + Scan(rest, m)
  {
    hide After, StepRequests, CharsOf, CellOf, EncodeBase;
    BaseScan(ctrl, k, name, value, rest);
  }

  lemma ScanEnd(rest: seq<byte>, m: nat)
    ensures Scan([END_BYTE] + rest, 1 + m) == Scan(rest, m)
  {
    var input := [END_BYTE] + rest;
    assert After(input) == rest && StepRequests(input) == [];
  }

  lemma {:induction false} ScanAttrs(attrs: seq<Attr>, rest: seq<byte>, m: nat)
    requires forall i :: 0 <= i < |attrs| ==> WireAttr(attrs[i])
    ensures Scan(EncodeAttrs(attrs) + rest, |EncodeAttrs(attrs)| + m) == ReadAttrRequests(attrs) + Scan(rest, m)
    decreases |attrs|
  {
    hide Scan, CharsOf, EncodeBase;
    if attrs == [] {
      assert EncodeAttrs(attrs) + rest == rest;
    } else {
      var x, more := attrs[0], EncodeAttrs(attrs[1..]);
      var b := EncodeBase(CTRL_ATTR, 0, x.name, x.value);
      ConcatAssoc(b, more, rest);
      ScanBase(CTRL_ATTR, 0, x.name, x.value, more + rest, |more| + m);
      ScanAttrs(attrs[1..], rest, m);
      ConcatAssoc(CharsOf(x.name) + CharsOf(x.value) + [AttrCell], ReadAttrRequests(attrs[1..]), Scan(rest, m));
    }
  }

  lemma {:induction false} ScanNode(t: Tree, ctrl: nat, top: bool, rest: seq<byte>, m: nat)
    requires ctrl < 3 && ctrl != CTRL_ATTR && WireMessage(t)
    ensures Scan(EncodeNode(t, ctrl, top) + rest, |EncodeNode(t, ctrl, top)| + m) == ReadRequests(t) + Scan(rest, m)
    decreases t, 1
  {
    hide Scan, CharsOf, CellOf, EncodeBase, EncodeAttrs, EncodeChildren, ReadAttrRequests, ReadKidRequests;
    var b, x, y := EncodeBase(ctrl, KindCode(t.kind), t.name, t.value), EncodeAttrs(t.attrs),
      EncodeChildren(t.children, true);
    var z := if t.children != [] || top then [END_BYTE] else [];
    assert EncodeNode(t, ctrl, top) + rest == b + (x + (y + (z + rest)));
    KindThereAndBack(t.kind);
    ScanBase(ctrl, KindCode(t.kind), t.name, t.value, x + (y + (z + rest)), |x| + (|y| + (|z| + m)));
    ScanAttrs(t.attrs, y + (z + rest), |y| + (|z| + m));
    ScanChildren(t.children, true, z + rest, |z| + m);
    if z == [] {
      ConcatEmpty(rest);
    } else {
      ScanEnd(rest, m);
    }
    var p, q := CharsOf(t.name) + CharsOf(t.value) + CellOf(t.kind), ReadAttrRequests(t.attrs);
    ConcatAssoc(q, ReadKidRequests(t.children), Scan(rest, m));
    ConcatAssoc(p, q, ReadKidRequests(t.children) + Scan(rest, m));
    ConcatAssoc(p + q, ReadKidRequests(t.children), Scan(rest, m));
  }

  lemma KindThereAndBack(k: Kind)
    ensures KindOf(KindCode(k)) == k
  {
  }

  lemma {:induction false} ScanChildren(ts: seq<Tree>, first: bool, rest: seq<byte>, m: nat)
    requires forall i :: 0 <= i < |ts| ==> WireNode(ts[i])
    ensures Scan(EncodeChildren(ts, first) + rest, |EncodeChildren(ts, first)| + m)
            == ReadKidRequests(ts) + Scan(rest, m)
    decreases ts, 0
  {
    hide Scan, EncodeNode, ReadRequests;
    if ts == [] {
      assert EncodeChildren(ts, first) + rest == rest;
    } else {
      var ctrl := if first then CTRL_NODE else CTRL_SIBL;
      var b, more := EncodeNode(ts[0], ctrl, false), EncodeChildren(ts[1..], false);
      ConcatAssoc(b, more, rest);
      ScanNode(ts[0], ctrl, false, more + rest, |more| + m);
      ScanChildren(ts[1..], false, rest, m);
      ConcatAssoc(ReadRequests(ts[0]), ReadKidRequests(ts[1..]), Scan(rest, m));
    }
  }

  /** Reading a message takes exactly the memory that its tree says, whatever follows. */
  lemma RequestsOfMessage(t: Tree, rest: seq<byte>)
    requires WireMessage(t)
    ensures RunRequests(Cursor(EmptyDocument(), 0, NONE, true), 0, Encode(t) + rest) == ReadRequests(t)
  {
    hide Run, RunRequests, ReadRequests, Scan, EncodeNode;
    DecodeOfEncoded(t, rest);
    ScanIsRun(Cursor(EmptyDocument(), 0, NONE, true), 0, Encode(t) + rest);
    ScanNode(t, CTRL_NODE, true, rest, 0);
    NothingScanned(rest);
    ConcatEmpty(ReadRequests(t));
  }

  lemma NothingScanned(rest: seq<byte>)
    ensures Scan(rest, 0) == []
  {
  }
}
