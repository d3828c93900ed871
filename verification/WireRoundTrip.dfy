/**
 What the recursive writer sends, the iterative reader rebuilds: the normal form of the
 tree, with nothing of the following bytes consumed.
 */
module WireRoundTrip {
  import opened Bytes
  import opened XmlTree
  import opened WireFormat
  import opened WireReader

  // ---- the arena that the reader reaches, described by recursion on the tree

  /** Cell `|a|` holds the node itself and its attributes. */
  ghost function Plant(a: Arena, p: nat, t: Tree): (r: Arena)
    requires p < |a|
    ensures |r| == |a| + 1
  {
    var r := Append(a, p, t.kind, t.name, t.value);
    r[|a| := r[|a|].(attrs := t.attrs)]
  }

  ghost function Graft(a: Arena, p: nat, t: Tree): (r: Arena)
    requires p < |a|
    ensures |r| > |a|
    decreases t, 1
  {
    GraftAll(Plant(a, p, t), |a|, t.children)
  }

  ghost function GraftAll(a: Arena, p: nat, ts: seq<Tree>): (r: Arena)
    requires p < |a|
    ensures |r| >= |a|
    decreases ts, 0
  {
    if ts == [] then a else GraftAll(Graft(a, p, ts[0]), p, ts[1..])
  }

  /** The cell of the last tree that was grafted. */
  ghost function LastOf(a: Arena, p: nat, ts: seq<Tree>): (i: nat)
    requires p < |a| && ts != []
    decreases |ts|
  {
    if |ts| == 1 then |a| else LastOf(Graft(a, p, ts[0]), p, ts[1..])
  }

  lemma PlantShape(a: Arena, p: nat, t: Tree)
    requires Wf(a) && p < |a|
    ensures var r := Plant(a, p, t);
            && Wf(r)
            && (forall j :: 0 <= j < |a| && j != p ==> r[j] == a[j])
            && r[p] == a[p].(kids := a[p].kids + [|a|], value := Lift(a[p].value, [t]))
            && r[|a|] == Cell(t.kind, t.name, t.value, t.attrs, p, [])
  {
    var b := Append(a, p, t.kind, t.name, t.value);
    SameLinks(b, |a|, b[|a|].(attrs := t.attrs));
  }

  /**
   `r` is `a` with new cells, all linked among themselves, of which `ks` became the last
   children of `p`; nothing else changed but the value of `p`.
   */
  ghost predicate Grown(a: Arena, p: nat, ks: seq<nat>, value: seq<byte>, r: Arena) {
    && p < |a| <= |r| && Wf(r) && Closed(r, |a|, |r|)
    && (forall j :: 0 <= j < |a| && j != p ==> r[j] == a[j])
    && r[p] == a[p].(kids := a[p].kids + ks, value := value)
    && (forall j :: 0 <= j < |ks| ==> |a| <= ks[j] < |r|)
  }

  lemma GrownTwice(a: Arena, p: nat, ks: seq<nat>, v: seq<byte>, b: Arena, ls: seq<nat>, w: seq<byte>, r: Arena)
    requires Wf(a) && Grown(a, p, ks, v, b) && Grown(b, p, ls, w, r)
    ensures Grown(a, p, ks + ls, w, r)
    ensures forall i :: |a| <= i < |b| ==> TreeAt(r, i) == TreeAt(b, i)
  {
    assert a[p].kids + ks + ls == a[p].kids + (ks + ls);
    forall i | |a| <= i < |b|
      ensures TreeAt(r, i) == TreeAt(b, i)
    {
      TreeAtFrame(b, r, i, |b|);
    }
  }

  lemma LiftInSteps(v: seq<byte>, ts: seq<Tree>)
    requires ts != []
    ensures Lift(Lift(v, ts[..1]), ts[1..]) == Lift(v, ts)
  {
    var w := if ts[0].kind == Data then ts[0].value else v;
    if v == [] {
      assert ts[..1][1..] == [];
      assert Lift(v, ts[..1]) == Lift(w, []) == w;
    }
  }

  /** What is new in the parent of a grafted child. */
  lemma GrownKid(a: Arena, p: nat, ks: seq<nat>, value: seq<byte>, r: Arena, j: nat)
    requires Grown(a, p, ks, value, r) && j < |ks|
    ensures r[p].kids[|a[p].kids| + j] == ks[j] && ks[j] < |r| && r[ks[j]].parent == p
  {
    assert KidWf(r, p, r[p].kids[|a[p].kids| + j]);
  }

  /** The cells that grafting adds form one interval, and mean the normal form of the tree. */
  lemma {:induction false} GraftShape(a: Arena, p: nat, t: Tree)
    requires Wf(a) && p < |a|
    ensures Grown(a, p, [|a|], Lift(a[p].value, [t]), Graft(a, p, t))
    ensures TreeAt(Graft(a, p, t), |a|) == Normal(t)
    decreases t, 1
  {
    PlantShape(a, p, t);
    var b, r := Plant(a, p, t), Graft(a, p, t);
    var ks := GraftAllShape(b, |a|, t.children);
    assert r[|a|].kids == ks;
    assert TreeAt(r, |a|).children == Normal(t).children;
  }

  lemma {:induction false} GraftAllShape(a: Arena, p: nat, ts: seq<Tree>) returns (ks: seq<nat>)
    requires Wf(a) && p < |a|
    ensures Grown(a, p, ks, Lift(a[p].value, ts), GraftAll(a, p, ts))
    ensures |ks| == |ts| && forall j :: 0 <= j < |ts| ==> TreeAt(GraftAll(a, p, ts), ks[j]) == Normal(ts[j])
    ensures ts != [] ==> LastOf(a, p, ts) == ks[|ks| - 1]
    decreases ts, 0
  {
    hide Grown, TreeAt, Normal, Lift, Graft;
    if ts == [] {
      ks := [];
      NothingGrown(a, p);
    } else {
      GraftShape(a, p, ts[0]);
      var b, r := Graft(a, p, ts[0]), GraftAll(a, p, ts);
      GrownFacts(a, p, [|a|], Lift(a[p].value, [ts[0]]), b);
      var ls := GraftAllShape(b, p, ts[1..]);
      var w := Lift(b[p].value, ts[1..]);
      GrownTwice(a, p, [|a|], Lift(a[p].value, [ts[0]]), b, ls, w, r);
      assert ts[..1] == [ts[0]];
      LiftInSteps(a[p].value, ts);
      ks := [|a|] + ls;
    }
  }

  lemma NothingGrown(a: Arena, p: nat)
    requires Wf(a) && p < |a|
    ensures Grown(a, p, [], Lift(a[p].value, []), a)
  {
    assert a[p].kids + [] == a[p].kids;
  }

  lemma GrownFacts(a: Arena, p: nat, ks: seq<nat>, value: seq<byte>, r: Arena)
    requires Grown(a, p, ks, value, r)
    ensures p < |a| <= |r| && Wf(r) && r[p].value == value && forall j :: 0 <= j < |ks| ==> |a| <= ks[j] < |r|
  {
  }

  // ---- the reader reaches it

  lemma TakeStrOfEncoded(s: seq<byte>, rest: seq<byte>)
    requires WireStr(s)
    ensures TakeStr(EncodeStr(s) + rest) == Got(s, rest)
  {
    var n, body := Be32(|s|), s + rest;
    FromBe32OfBe32(|s|);
    hide FromBe32, Be32;
    assert EncodeStr(s) + rest == n + body;
    SplitConcat(n, body);
    SplitConcat(s, rest);
    TakeCounted(n, |s|, body);
  }

  lemma TakeCounted(n: seq<byte>, k: nat, body: seq<byte>)
    requires |n| == 4 && FromBe32(n) == k <= |body|
    ensures TakeStr(n + body) == Got(CStr(body[..k]), body[k..])
  {
    SplitConcat(n, body);
    hide FromBe32;
    var input := n + body;
    assert input[4..4 + k] == body[..k];
    assert input[4 + k..] == body[k..];
  }

  lemma TakePairOfEncoded(name: seq<byte>, value: seq<byte>, rest: seq<byte>)
    requires WireStr(name) && WireStr(value)
    ensures TakePair(EncodeStr(name) + EncodeStr(value) + rest) == Pair(name, value, rest)
  {
    TakeStrOfEncoded(name, EncodeStr(value) + rest);
    TakeStrOfEncoded(value, rest);
    assert EncodeStr(name) + EncodeStr(value) + rest == EncodeStr(name) + (EncodeStr(value) + rest);
  }

  /** The first control byte and the two strings after it. */
  lemma BaseSplit(ctrl: nat, k: nat, name: seq<byte>, value: seq<byte>, rest: seq<byte>)
    requires ctrl < 4 && k < 8 && WireStr(name) && WireStr(value)
    ensures var input := EncodeBase(ctrl, k, name, value) + rest;
            && input != [] && input[0] / 64 == ctrl && input[0] % 64 == k
            && TakePair(input[1..]) == Pair(name, value, rest)
  {
    TakePairOfEncoded(name, value, rest);
    var strs := EncodeStr(name) + EncodeStr(value) + rest;
    SplitConcat([CtrlByte(ctrl, k)], strs);
    hide TakePair, EncodeStr;
    assert EncodeBase(ctrl, k, name, value) + rest == [CtrlByte(ctrl, k)] + strs;
  }

  /** One ATTR is read onto the node under the cursor. */
  lemma AttrStep(c: Cursor, top: nat, x: Attr, rest: seq<byte>)
    requires Ready(c) && !c.first && c.node != NONE && c.arena[c.node].parent != NONE && WireAttr(x)
    ensures StepOn(c, top, EncodeBase(CTRL_ATTR, 0, x.name, x.value) + rest)
         == Next(WithAttrs(c, [x]), rest)
  {
    BaseSplit(CTRL_ATTR, 0, x.name, x.value, rest);
  }

  /** The cursor after `attrs` have been appended to its node. */
  ghost function WithAttrs(c: Cursor, attrs: seq<Attr>): (r: Cursor)
    requires 0 <= c.node < |c.arena|
  {
    c.(arena := c.arena[c.node := c.arena[c.node].(attrs := c.arena[c.node].attrs + attrs)])
  }

  lemma WithAttrsTwice(c: Cursor, attrs: seq<Attr>)
    requires 0 <= c.node < |c.arena|
    ensures attrs == [] ==> WithAttrs(c, attrs) == c
    ensures attrs != [] ==> WithAttrs(WithAttrs(c, attrs[..1]), attrs[1..]) == WithAttrs(c, attrs)
  {
    var cell := c.arena[c.node];
    assert attrs == [] ==> cell.attrs + attrs == cell.attrs && cell.(attrs := cell.attrs + attrs) == cell;
    if attrs != [] {
      assert cell.attrs + attrs[..1] + attrs[1..] == cell.attrs + attrs;
      assert WithAttrs(WithAttrs(c, attrs[..1]), attrs[1..]).arena == WithAttrs(c, attrs).arena;
    }
  }

  lemma {:induction false} ReadAttrs(c: Cursor, top: nat, attrs: seq<Attr>, rest: seq<byte>)
    requires Ready(c) && !c.first && c.node != NONE && c.arena[c.node].parent != NONE
    requires forall i :: 0 <= i < |attrs| ==> WireAttr(attrs[i])
    ensures Ready(WithAttrs(c, attrs))
    ensures Run(c, top, EncodeAttrs(attrs) + rest) == Run(WithAttrs(c, attrs), top, rest)
    decreases |attrs|
  {
    WithAttrsTwice(c, attrs);
    if attrs == [] {
      assert EncodeAttrs(attrs) + rest == rest;
    } else {
      var x, more := attrs[0], EncodeAttrs(attrs[1..]) + rest;
      assert EncodeAttrs(attrs) + rest == EncodeBase(CTRL_ATTR, 0, x.name, x.value) + more;
      AttrStep(c, top, x, more);
      assert attrs[..1] == [x];
      ReadAttrs(WithAttrs(c, [x]), top, attrs[1..], rest);
    }
  }

  lemma EncodeNodeSplit(t: Tree, ctrl: nat, top: bool, rest: seq<byte>)
    requires ctrl < 4
    ensures EncodeNode(t, ctrl, top) + rest
         == (EncodeBase(ctrl, KindCode(t.kind), t.name, t.value) + EncodeAttrs(t.attrs))
          + (EncodeChildren(t.children, true) + ((if t.children != [] || top then [END_BYTE] else []) + rest))
  {
    hide EncodeBase, EncodeAttrs, EncodeChildren;
  }

  /** Where the cursor stands after the first step of reading `t` below `p`. */
  ghost function Entered(c: Cursor, p: nat, t: Tree): (r: Cursor)
    requires p < |c.arena|
  {
    Cursor(Append(c.arena, p, t.kind, t.name, t.value), |c.arena|, if c.root == NONE then |c.arena| else c.root, false)
  }

  lemma NodeStep(c: Cursor, top: nat, p: nat, t: Tree, ctrl: nat, rest: seq<byte>)
    requires Ready(c) && c.node != NONE && WireNode(t)
    requires (ctrl == CTRL_NODE && p == c.node) || (ctrl == CTRL_SIBL && p == c.arena[c.node].parent)
    ensures StepOn(c, top, EncodeBase(ctrl, KindCode(t.kind), t.name, t.value) + rest) == Next(Entered(c, p, t), rest)
  {
    BaseSplit(ctrl, KindCode(t.kind), t.name, t.value, rest);
    assert KindOf(KindCode(t.kind)) == t.kind;
  }

  /** The control byte, the strings and the attributes of a node plant it below `p`. */
  lemma ReadHead(c: Cursor, top: nat, p: nat, t: Tree, ctrl: nat, rest: seq<byte>)
    requires Ready(c) && c.node != NONE && WireNode(t)
    requires (ctrl == CTRL_NODE && p == c.node) || (ctrl == CTRL_SIBL && p == c.arena[c.node].parent)
    ensures var d := Entered(c, p, t).(arena := Plant(c.arena, p, t));
            && Ready(d)
            && Run(c, top, EncodeBase(ctrl, KindCode(t.kind), t.name, t.value) + EncodeAttrs(t.attrs) + rest)
               == Run(d, top, rest)
  {
    hide StepOn, EncodeBase, EncodeAttrs;
    var base, more := EncodeBase(ctrl, KindCode(t.kind), t.name, t.value), EncodeAttrs(t.attrs) + rest;
    assert base + EncodeAttrs(t.attrs) + rest == base + more;
    NodeStep(c, top, p, t, ctrl, more);
    var d := Entered(c, p, t);
    ReadAttrs(d, top, t.attrs, rest);
    assert d.arena[d.node].attrs + t.attrs == t.attrs;
  }

  lemma EndStep(c: Cursor, top: nat, rest: seq<byte>)
    requires Ready(c) && c.node != NONE
    ensures var parent := c.arena[c.node].parent;
            StepOn(c, top, [END_BYTE] + rest) == (if c.node == c.root || parent == c.root then Halt(c.arena, rest)
                                                  else Next(c.(node := parent, first := false), rest))
  {
    assert ([END_BYTE] + rest)[1..] == rest;
  }

  lemma {:induction false} ReadNode(c: Cursor, top: nat, p: nat, t: Tree, ctrl: nat, rest: seq<byte>)
    requires Ready(c) && c.node != NONE && c.root != NONE && WireNode(t)
    requires (ctrl == CTRL_NODE && p == c.node) || (ctrl == CTRL_SIBL && p == c.arena[c.node].parent)
    ensures var d := Cursor(Graft(c.arena, p, t), |c.arena|, c.root, false);
            Ready(d) && Run(c, top, EncodeNode(t, ctrl, false) + rest) == Run(d, top, rest)
    decreases t, 1
  {
    var i := |c.arena|;
    GraftShape(c.arena, p, t);
    var tail := if t.children != [] then [END_BYTE] else [];
    EncodeNodeSplit(t, ctrl, false, rest);
    ReadHead(c, top, p, t, ctrl, EncodeChildren(t.children, true) + (tail + rest));
    ReadInside(Cursor(Plant(c.arena, p, t), i, c.root, false), top, t.children, rest);
  }

  /** The children of a node below the root, and the END that closes them. */
  lemma {:induction false} ReadInside(c: Cursor, top: nat, ts: seq<Tree>, rest: seq<byte>)
    requires Ready(c) && !c.first && c.node != NONE && c.root != NONE && c.root < c.node == |c.arena| - 1
    requires forall i :: 0 <= i < |ts| ==> WireNode(ts[i])
    ensures var d := c.(arena := GraftAll(c.arena, c.node, ts));
            Ready(d) && Run(c, top, EncodeChildren(ts, true) + ((if ts != [] then [END_BYTE] else []) + rest))
              == Run(d, top, rest)
    decreases ts, 1
  {
    hide EncodeChildren, StepOn, Run, Lift, Closed;
    if ts == [] {
      ReadChildren(c, top, c.node, ts, true, rest);
      ConcatEmpty(rest);
    } else {
      ReadChildren(c, top, c.node, ts, true, [END_BYTE] + rest);
      CloseChildren(c, top, ts, rest);
    }
  }

  /** The END after the last child takes the cursor back to the parent. */
  lemma CloseChildren(c: Cursor, top: nat, ts: seq<Tree>, rest: seq<byte>)
    requires Ready(c) && !c.first && c.node != NONE && c.root != NONE && c.root < c.node == |c.arena| - 1 && ts != []
    ensures var r := GraftAll(c.arena, c.node, ts);
            var d := Cursor(r, LastOf(c.arena, c.node, ts), c.root, false);
            Ready(d) && Ready(c.(arena := r)) && Run(d, top, [END_BYTE] + rest) == Run(c.(arena := r), top, rest)
  {
    hide StepOn, Lift, Closed;
    var ks := GraftAllShape(c.arena, c.node, ts);
    GrownKid(c.arena, c.node, ks, Lift(c.arena[c.node].value, ts), GraftAll(c.arena, c.node, ts), |ks| - 1);
    EndStep(Cursor(GraftAll(c.arena, c.node, ts), LastOf(c.arena, c.node, ts), c.root, false), top, rest);
  }

  lemma {:induction false} ReadChildren(c: Cursor, top: nat, p: nat, ts: seq<Tree>, first: bool, rest: seq<byte>)
    requires Ready(c) && !c.first && c.node != NONE && c.root != NONE && p < |c.arena|
    requires if first then c.node == p else c.arena[c.node].parent == p
    requires forall i :: 0 <= i < |ts| ==> WireNode(ts[i])
    ensures var node := if ts == [] then c.node else LastOf(c.arena, p, ts);
            var d := Cursor(GraftAll(c.arena, p, ts), node, c.root, false);
            Ready(d) && Run(c, top, EncodeChildren(ts, first) + rest) == Run(d, top, rest)
    decreases ts, 0
  {
    if ts == [] {
      assert EncodeChildren(ts, first) + rest == rest;
    } else {
      var ctrl := if first then CTRL_NODE else CTRL_SIBL;
      var more := EncodeChildren(ts[1..], false) + rest;
      assert EncodeChildren(ts, first) + rest == EncodeNode(ts[0], ctrl, false) + more;
      hide EncodeNode, EncodeChildren, Run, Closed, Lift;
      var b := Graft(c.arena, p, ts[0]);
      GraftShape(c.arena, p, ts[0]);
      GrownKid(c.arena, p, [|c.arena|], Lift(c.arena[p].value, [ts[0]]), b, 0);
      ReadNode(c, top, p, ts[0], ctrl, more);
      ReadChildren(Cursor(b, |c.arena|, c.root, false), top, p, ts[1..], false, rest);
    }
  }

  /** After its head, the rest of a message is read and the final END stops the reader. */
  lemma ReadToEnd(c: Cursor, top: nat, ts: seq<Tree>, rest: seq<byte>)
    requires Ready(c) && !c.first && c.node != NONE && c.root == c.node
    requires forall i :: 0 <= i < |ts| ==> WireNode(ts[i])
    ensures Run(c, top, EncodeChildren(ts, true) + ([END_BYTE] + rest)) == Halt(GraftAll(c.arena, c.node, ts), rest)
  {
    ReadChildren(c, top, c.node, ts, true, [END_BYTE] + rest);
    var r := GraftAll(c.arena, c.node, ts);
    if ts == [] {
      EndStep(c, top, rest);
    } else {
      var ks := GraftAllShape(c.arena, c.node, ts);
      GrownKid(c.arena, c.node, ks, Lift(c.arena[c.node].value, ts), r, |ks| - 1);
      EndStep(Cursor(r, LastOf(c.arena, c.node, ts), c.root, false), top, rest);
    }
  }

  /** The document in which the reader leaves a message. */
  ghost function Delivered(t: Tree): Tree {
    if t.kind == Document then Normal(t) else Normal(Tree(Document, [], [], [], [t]))
  }

  /** A DOCUMENT node is not linked below the reader's root: it names the root itself. */
  lemma DocumentStep(t: Tree, rest: seq<byte>)
    requires WireMessage(t) && t.kind == Document
    ensures Ready(Named(t))
    ensures StepOn(Cursor(EmptyDocument(), 0, NONE, true), 0, EncodeBase(CTRL_NODE, 0, t.name, t.value) + rest)
         == Next(Named(t), rest)
  {
    BaseSplit(CTRL_NODE, 0, t.name, t.value, rest);
    assert KindOf(0) == Document;
  }

  /** The cursor after the control byte and the strings of a DOCUMENT. */
  ghost function Named(t: Tree): Cursor {
    Cursor([Cell(Document, t.name, t.value, [], NONE, [])], 0, 0, false)
  }

  lemma DecodeDocument(t: Tree, rest: seq<byte>)
    requires WireMessage(t) && t.kind == Document
    ensures var s := Decode(Encode(t) + rest);
            s.Halt? && s.rest == rest && Wf(s.arena) && s.arena != [] && TreeAt(s.arena, 0) == Normal(t)
  {
    var kids := EncodeChildren(t.children, true) + ([END_BYTE] + rest);
    DocumentStep(t, kids);
    EncodeNodeSplit(t, CTRL_NODE, true, rest);
    assert EncodeBase(CTRL_NODE, 0, t.name, t.value) + EncodeAttrs([]) == EncodeBase(CTRL_NODE, 0, t.name, t.value);
    hide EncodeBase, EncodeChildren, StepOn;
    assert Decode(Encode(t) + rest) == Run(Named(t), 0, kids);
    ReadToEnd(Named(t), 0, t.children, rest);
    DocumentTree(t);
  }

  lemma DocumentTree(t: Tree)
    requires t.kind == Document && t.attrs == []
    ensures var r := GraftAll(Named(t).arena, 0, t.children); Wf(r) && TreeAt(r, 0) == Normal(t)
  {
    hide Grown, GraftAll, Graft, Lift;
    var a := Named(t).arena;
    var r := GraftAll(a, 0, t.children);
    var ks := GraftAllShape(a, 0, t.children);
    RootOfGrown(a, ks, Lift(t.value, t.children), r);
    assert TreeAt(r, 0).children == Normal(t).children;
  }

  lemma RootOfGrown(a: Arena, ks: seq<nat>, value: seq<byte>, r: Arena)
    requires Grown(a, 0, ks, value, r) && a[0].kids == []
    ensures Wf(r) && r != [] && r[0] == a[0].(kids := ks, value := value)
  {
  }

  lemma DecodeNode(t: Tree, rest: seq<byte>)
    requires WireMessage(t) && t.kind != Document
    ensures Decode(Encode(t) + rest) == Halt(Graft(EmptyDocument(), 0, t), rest)
  {
    var a := EmptyDocument();
    var kids := EncodeChildren(t.children, true) + ([END_BYTE] + rest);
    EncodeNodeSplit(t, CTRL_NODE, true, rest);
    ReadHead(Cursor(a, 0, NONE, true), 0, 0, t, CTRL_NODE, kids);
    ReadToEnd(Cursor(Plant(a, 0, t), 1, 1, false), 0, t.children, rest);
  }

  /**
   Round trip and framing: the reader, fed a message and whatever comes after it, stops with
   exactly what comes after it, holding the normal form of the message.
   */
  lemma DecodeOfEncoded(t: Tree, rest: seq<byte>)
    requires WireMessage(t)
    ensures var s := Decode(Encode(t) + rest);
            s.Halt? && s.rest == rest && Wf(s.arena) && s.arena != [] && TreeAt(s.arena, 0) == Delivered(t)
  {
    if t.kind == Document {
      DecodeDocument(t, rest);
    } else {
      DecodeNode(t, rest);
      var a := EmptyDocument();
      var r := Graft(a, 0, t);
      GraftShape(a, 0, t);
      assert r[0].kids == [1];
      assert TreeAt(r, 0).children == [Normal(t)] == Delivered(t).children;
    }
  }

  function EncodeAll(ts: seq<Tree>): seq<byte> {
    if ts == [] then [] else Encode(ts[0]) + EncodeAll(ts[1..])
  }

  /** Reading message after message from `input` gives `ts`, and leaves `rest`. */
  ghost predicate ReadsAs(input: seq<byte>, ts: seq<Tree>, rest: seq<byte>)
    decreases |ts|
  {
    if ts == [] then input == rest
    else
      var s := Decode(input);
      && s.Halt? && Wf(s.arena) && s.arena != [] && TreeAt(s.arena, 0) == Delivered(ts[0])
      && ReadsAs(s.rest, ts[1..], rest)
  }

  /** Messages sent back to back are received one by one, none lost and none joined. */
  lemma {:induction false} MessagesInOrder(ts: seq<Tree>, rest: seq<byte>)
    requires forall i :: 0 <= i < |ts| ==> WireMessage(ts[i])
    ensures ReadsAs(EncodeAll(ts) + rest, ts, rest)
    decreases |ts|
  {
    if ts == [] {
      assert EncodeAll(ts) + rest == rest;
    } else {
      var more := EncodeAll(ts[1..]) + rest;
      assert EncodeAll(ts) + rest == Encode(ts[0]) + more;
      DecodeOfEncoded(ts[0], more);
      MessagesInOrder(ts[1..], rest);
    }
  }

  /** No message is a proper prefix of another, and equal bytes mean equal documents. */
  lemma EncodingIsPrefixFree(t: Tree, u: Tree, x: seq<byte>, y: seq<byte>)
    requires WireMessage(t) && WireMessage(u) && Encode(t) + x == Encode(u) + y
    ensures x == y && Encode(t) == Encode(u) && Delivered(t) == Delivered(u)
  {
    DecodeOfEncoded(t, x);
    DecodeOfEncoded(u, y);
    SplitConcat(Encode(t), x);
    SplitConcat(Encode(u), y);
  }
}
