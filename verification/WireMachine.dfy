/**
 The reader and the writer as they run: loops and recursion that update a document, a buffer
 and a connection in place, proved against `WireReader.Run` and `WireFormat.EncodeNode`.
 */
module WireMachine {
  import opened Bytes
  import opened XmlTree
  import opened WireFormat
  import opened WireReader
  import opened WireRoundTrip
  import opened WireMemory
  import opened Connection

  /** `WildPointer` is the point at which the code would follow a NULL node pointer. */
  datatype Outcome = Done | Refused | OutOfMemory | WildPointer

  /**
   A document under construction; `blocks` counts the allocations that will succeed, `requests`
   is what has been asked for since the root was made.
   */
  class XmlDocument {
    var arena: Arena
    var blocks: nat
    ghost var requests: seq<Request>

    constructor (blocks: nat)
      ensures arena == EmptyDocument() && this.blocks == blocks && requests == []
    {
      arena, this.blocks := EmptyDocument(), blocks;
      requests := [];
    }

    method Alloc(ghost r: Request) returns (ok: bool)
      modifies this`blocks, this`requests
      ensures requests == old(requests) + [r]
      ensures ok <==> old(blocks) > 0
      ensures blocks == if ok then old(blocks) - 1 else 0
    {
      ok := blocks > 0;
      blocks := if ok then blocks - 1 else 0;
      requests := requests + [r];
    }
  }

  /** The bytes read, or why there are none. */
  datatype Input<T> = Value(v: T) | NoInput | NoMemory

  method ReadByte(conn: Receiver) returns (r: Input<byte>)
    requires conn.Valid()
    modifies conn, conn.storage
    ensures conn.Valid() && !r.NoMemory?
    ensures r.NoInput? <==> old(conn.Stream()) == []
    ensures r.Value? ==> r.v == old(conn.Stream())[0] && conn.Stream() == old(conn.Stream())[1..]
  {
    var data := new byte[1];
    var ok := conn.RecvAll(data);
    if !ok {
      return NoInput;
    }
    assert data[..][0] == data[0];
    return Value(data[0]);
  }

  method ReadString(conn: Receiver, doc: XmlDocument) returns (r: Input<seq<byte>>)
    requires conn.Valid()
    modifies conn, conn.storage, doc`blocks, doc`requests
    ensures conn.Valid()
    ensures r.Value? ==> doc.requests == old(doc.requests) + StrRequests(old(conn.Stream()))
    ensures !r.NoMemory? ==> doc.blocks + |doc.requests| == old(doc.blocks) + |old(doc.requests)|
    ensures r.NoMemory? ==> doc.blocks == 0 && old(doc.blocks) < |StrRequests(old(conn.Stream()))|
    ensures !r.NoMemory? ==> match TakeStr(old(conn.Stream()))
                             case Short => r.NoInput?
                             case Got(s, rest) => r == Value(s) && conn.Stream() == rest
  {
    hide Delivery, CStr, FromBe32;
    ghost var s := conn.Stream();
    var prefix := new byte[4];
    var ok := conn.RecvAll(prefix);
    if !ok {
      return NoInput;
    }
    var size := FromBe32(prefix[..]);
    if size == 0 {
      return Value([]);
    }
    var granted := doc.Alloc(Chars(size + 1));
    if !granted {
      return NoMemory;
    }
    var p := new byte[size];
    ok := conn.RecvAll(p);
    if !ok {
      return NoInput;
    }
    assert p[..] == s[4..4 + size] && conn.Stream() == s[4 + size..];
    return Value(CStr(p[..]));
  }

  method ReadPair(conn: Receiver, doc: XmlDocument) returns (r: Input<(seq<byte>, seq<byte>)>)
    requires conn.Valid()
    modifies conn, conn.storage, doc`blocks, doc`requests
    ensures conn.Valid()
    ensures r.Value? ==> doc.requests == old(doc.requests) + PairRequests(old(conn.Stream()))
    ensures !r.NoMemory? ==> doc.blocks + |doc.requests| == old(doc.blocks) + |old(doc.requests)|
    ensures r.NoMemory? ==> doc.blocks == 0
    ensures r.NoMemory? && TakePair(old(conn.Stream())).Pair? ==> old(doc.blocks) < |PairRequests(old(conn.Stream()))|
    ensures !r.NoMemory? ==> match TakePair(old(conn.Stream()))
                             case NoPair => r.NoInput?
                             case Pair(name, value, rest) => r == Value((name, value)) && conn.Stream() == rest
  {
    var name := ReadString(conn, doc);
    match name
    case NoInput => return NoInput;
    case NoMemory => return NoMemory;
    case Value(n) =>
      var value := ReadString(conn, doc);
      match value
      case NoInput => return NoInput;
      case NoMemory => return NoMemory;
      case Value(v) => return Value((n, v));
  }

  /** What an outcome means for the document and for the stream. */
  ghost predicate Agrees(outcome: Outcome, arena: Arena, stream: seq<byte>, s: Step) {
    match s
    case Halt(a, rest) => outcome == Done && arena == a && stream == rest
    case Lost => outcome == WildPointer
    case _ => outcome == Refused
  }

  /** The reader: a loop over control bytes with a cursor in the document. */
  method ReadChildren(conn: Receiver, doc: XmlDocument, top: nat) returns (outcome: Outcome)
    requires conn.Valid() && Wf(doc.arena) && top < |doc.arena|
    modifies conn, conn.storage, doc
    ensures conn.Valid() && (outcome == OutOfMemory ==> doc.blocks == 0)
    ensures outcome == Done ==> Wf(doc.arena) && doc.arena != []
    ensures outcome == Done ==>
              doc.requests
                == old(doc.requests) + RunRequests(Cursor(old(doc.arena), top, NONE, true), top, old(conn.Stream()))
    ensures outcome == Done ==> doc.blocks + |doc.requests| == old(doc.blocks) + |old(doc.requests)|
    ensures outcome == OutOfMemory && Run(Cursor(old(doc.arena), top, NONE, true), top, old(conn.Stream())).Halt? ==>
              old(doc.blocks) < |RunRequests(Cursor(old(doc.arena), top, NONE, true), top, old(conn.Stream()))|
    ensures outcome != OutOfMemory ==>
              Agrees(outcome, doc.arena, conn.Stream(),
                     Run(Cursor(old(doc.arena), top, NONE, true), top, old(conn.Stream())))
  {
    hide Delivery, Wf, Run, RunRequests, StepOn, StepRequests;
    ghost var all := Run(Cursor(doc.arena, top, NONE, true), top, conn.Stream());
    ghost var asked := doc.requests + RunRequests(Cursor(doc.arena, top, NONE, true), top, conn.Stream());
    var node: int, root := top, NONE;
    var first := true;
    while true
      invariant conn.Valid() && Ready(Cursor(doc.arena, node, root, first))
      invariant Run(Cursor(doc.arena, node, root, first), top, conn.Stream()) == all
      invariant doc.requests + RunRequests(Cursor(doc.arena, node, root, first), top, conn.Stream()) == asked
      invariant doc.arena != [] && doc.blocks + |doc.requests| == old(doc.blocks) + |old(doc.requests)|
      decreases |conn.Stream()|
    {
      ghost var c, input, had := Cursor(doc.arena, node, root, first), conn.Stream(), doc.requests;
      RunPass(c, top, input);
      var more;
      outcome, more, node, root := ReadPass(conn, doc, top, node, root, first);
      if !more {
        ConcatEmpty(doc.requests);
        return;
      }
      first := false;
      ConcatAssoc(had, StepRequests(input), RunRequests(Cursor(doc.arena, node, root, first), top, conn.Stream()));
    }
  }

  /** One pass of the loop; without `more` it is the last. */
  method ReadPass(conn: Receiver, doc: XmlDocument, top: nat, node: int, root: int, first: bool)
    returns (outcome: Outcome, more: bool, node': int, root': int)
    requires conn.Valid() && Ready(Cursor(doc.arena, node, root, first)) && doc.arena != []
    modifies conn, conn.storage, doc
    ensures conn.Valid() && (outcome == OutOfMemory ==> !more && doc.blocks == 0)
    ensures outcome == Done ==> doc.blocks + |doc.requests| == old(doc.blocks) + |old(doc.requests)|
    ensures var s := StepOn(Cursor(old(doc.arena), node, root, first), top, old(conn.Stream()));
            if more then
              && outcome == Done && doc.arena != [] && s == Next(Cursor(doc.arena, node', root', false), conn.Stream())
              && doc.requests == old(doc.requests) + StepRequests(old(conn.Stream()))
            else if outcome == OutOfMemory then
              !s.Halt? && (s.Next? ==> old(doc.blocks) < |StepRequests(old(conn.Stream()))|)
            else
              && !s.Next? && Agrees(outcome, doc.arena, conn.Stream(), s)
              && (outcome == Done ==> Wf(doc.arena) && doc.arena != [] && doc.requests == old(doc.requests))
  {
    hide Delivery, Wf, PairRequests, StepOn, StepRequests, StepNode, StepAttr;
    node', root', more := node, root, false;
    StepOnByte(Cursor(doc.arena, node, root, first), top, conn.Stream());
    if node == NONE {
      return WildPointer, false, node', root';
    }
    var parent := doc.arena[node].parent;
    var head := ReadByte(conn);
    if head.NoInput? {
      return Refused, false, node', root';
    }
    var ctrl, code := head.v / 64, head.v % 64;
    if code > 7 {
      return Refused, false, node', root';
    }
    if ctrl == CTRL_NODE || ctrl == CTRL_SIBL {
      outcome, node', root' := ReadNode(conn, doc, top, ctrl, KindOf(code), node, root, first);
      more := outcome == Done;
    } else if ctrl == CTRL_ATTR {
      outcome := ReadAttr(conn, doc, node);
      more := outcome == Done;
    } else {
      node', outcome := parent, Done;
      more := node != root && parent != root;
      ConcatEmpty(doc.requests);
    }
  }

  lemma ParentBefore(a: Arena, i: nat)
    requires Wf(a) && i < |a|
    ensures NONE <= a[i].parent < i
  {
  }

  method ReadNode(conn: Receiver, doc: XmlDocument, top: nat, ctrl: nat, kind: Kind, node: int, root: int, first: bool)
    returns (outcome: Outcome, node': int, root': int)
    requires conn.Valid() && Ready(Cursor(doc.arena, node, root, first)) && node != NONE
    requires ctrl == CTRL_NODE || ctrl == CTRL_SIBL
    modifies conn, conn.storage, doc
    ensures conn.Valid() && outcome != WildPointer && (outcome == OutOfMemory ==> doc.blocks == 0)
    ensures outcome == Done ==> doc.blocks + |doc.requests| == old(doc.blocks) + |old(doc.requests)|
    ensures outcome == Done ==>
              && doc.arena != []
              && doc.requests == old(doc.requests)
                 + (PairRequests(old(conn.Stream())) + if kind == Document then [] else [NodeCell])
    ensures outcome == OutOfMemory
            && StepNode(Cursor(old(doc.arena), node, root, first), top, ctrl, kind, old(conn.Stream())).Next? ==>
              old(doc.blocks) < |PairRequests(old(conn.Stream()))| + if kind == Document then 0 else 1
    ensures outcome != OutOfMemory ==>
              var s := StepNode(Cursor(old(doc.arena), node, root, first), top, ctrl, kind, old(conn.Stream()));
              if outcome == Done then s == Next(Cursor(doc.arena, node', root', false), conn.Stream()) else !s.Next?
  {
    hide Delivery, PairRequests, TakePair, Wf;
    node', root' := node, root;
    var parent := doc.arena[node].parent;
    ParentBefore(doc.arena, node);
    if kind == Document {
      if !first || node != top || doc.arena[node].kind != Document || ctrl != CTRL_NODE {
        return Refused, node', root';
      }
      var pair := ReadPair(conn, doc);
      match pair
      case NoInput => return Refused, node', root';
      case NoMemory => return OutOfMemory, node', root';
      case Value(v) =>
        doc.arena := doc.arena[node := doc.arena[node].(name := v.0, value := v.1)];
        return Done, node, node;
    }
    if ctrl == CTRL_SIBL && parent == NONE {
      return Refused, node', root';
    }
    var pair := ReadPair(conn, doc);
    match pair
    case NoInput => return Refused, node', root';
    case NoMemory => return OutOfMemory, node', root';
    case Value(v) =>
      var granted := doc.Alloc(NodeCell);
      if !granted {
        return OutOfMemory, node', root';
      }
      if !NameFits(kind, v.0) {
        return Refused, node', root';
      }
      var p := if ctrl == CTRL_NODE then node else parent;
      node' := |doc.arena|;
      doc.arena := Append(doc.arena, p, kind, v.0, v.1);
      root' := if root == NONE then node' else root;
      return Done, node', root';
  }

  method ReadAttr(conn: Receiver, doc: XmlDocument, node: int) returns (outcome: Outcome)
    requires conn.Valid() && Wf(doc.arena) && 0 <= node < |doc.arena|
    modifies conn, conn.storage, doc
    ensures conn.Valid() && outcome != WildPointer && (outcome == OutOfMemory ==> doc.blocks == 0)
    ensures outcome == Done ==> doc.blocks + |doc.requests| == old(doc.blocks) + |old(doc.requests)|
    ensures outcome == Done ==>
              doc.arena != [] && doc.requests == old(doc.requests) + (PairRequests(old(conn.Stream())) + [AttrCell])
    ensures outcome == OutOfMemory ==>
              forall root, first | NONE <= root < |old(doc.arena)| ::
                StepAttr(Cursor(old(doc.arena), node, root, first), old(conn.Stream())).Next? ==>
                  old(doc.blocks) < |PairRequests(old(conn.Stream()))| + 1
    ensures outcome != OutOfMemory ==>
              forall root, first | NONE <= root < |old(doc.arena)| ::
                var s := StepAttr(Cursor(old(doc.arena), node, root, first), old(conn.Stream()));
                if outcome == Done then s == Next(Cursor(doc.arena, node, root, false), conn.Stream()) else !s.Next?
  {
    hide Delivery, PairRequests, TakePair, Wf;
    if doc.arena[node].parent == NONE {
      return Refused;
    }
    var pair := ReadPair(conn, doc);
    match pair
    case NoInput => return Refused;
    case NoMemory => return OutOfMemory;
    case Value(v) =>
      var granted := doc.Alloc(AttrCell);
      if !granted {
        return OutOfMemory;
      }
      if v.0 == [] {
        return Refused;
      }
      doc.arena := doc.arena[node := doc.arena[node].(attrs := doc.arena[node].attrs + [Attr(v.0, v.1)])];
      return Done;
  }

  /**
   Receiving a message into a new document.  Whatever tree was sent, and however its bytes
   were cut into chunks, its normal form arrives and the following bytes stay unread, exactly if
   there is memory for what its tree says.
   */
  method Receive(conn: Receiver, blocks: nat) returns (outcome: Outcome, doc: XmlDocument)
    requires conn.Valid()
    modifies conn, conn.storage
    ensures conn.Valid() && fresh(doc) && (outcome == OutOfMemory ==> doc.blocks == 0)
    ensures outcome == Done ==> Wf(doc.arena) && doc.arena != []
    ensures forall t, rest :: WireMessage(t) && old(conn.Stream()) == Encode(t) + rest ==>
              && (outcome == OutOfMemory <==> blocks < |ReadRequests(t)|)
              && (outcome != OutOfMemory ==>
                 doc.requests == ReadRequests(t) && doc.blocks == blocks - |ReadRequests(t)|)
    ensures forall t, rest :: WireMessage(t) && old(conn.Stream()) == Encode(t) + rest && outcome != OutOfMemory ==>
              && outcome == Done && conn.Stream() == rest
              && Wf(doc.arena) && doc.arena != [] && TreeAt(doc.arena, 0) == Delivered(t)
  {
    doc := new XmlDocument(blocks);
    ghost var input := conn.Stream();
    outcome := ReadChildren(conn, doc, 0);
    forall t, rest | WireMessage(t) && input == Encode(t) + rest
      ensures outcome == OutOfMemory <==> blocks < |ReadRequests(t)|
      ensures outcome != OutOfMemory ==> doc.requests == ReadRequests(t) && doc.blocks == blocks - |ReadRequests(t)|
      ensures outcome != OutOfMemory ==> outcome == Done && conn.Stream() == rest
      ensures outcome != OutOfMemory ==> Wf(doc.arena) && doc.arena != [] && TreeAt(doc.arena, 0) == Delivered(t)
    {
      DecodeOfEncoded(t, rest);
      RequestsOfMessage(t, rest);
      ConcatEmpty(ReadRequests(t));
    }
  }

  // ---- the writer

  /** Put position, overflow mark and contents of a writer's buffer. */
  datatype Snap = Snap(p: nat, full: bool, bytes: seq<byte>)

  /**
   What storing `bytes` does in each mode: only their number is returned, or they are
   appended, or, when they do not fit, the writer becomes full and stays so.
   */
  ghost predicate Wrote(counting: bool, s: Snap, bytes: seq<byte>, size: nat, t: Snap) {
    && s.p <= |s.bytes| == |t.bytes| && t.p <= |t.bytes|
    && (counting ==> size == |bytes| && t == s)
    && (!counting && (s.full || s.p + |bytes| > |s.bytes|) ==> t.full)
    && (!counting && !s.full && s.p + |bytes| <= |s.bytes| ==>
          && size == |bytes|
          && t == Snap(s.p + |bytes|, false, s.bytes[..s.p] + bytes + s.bytes[s.p + |bytes|..]))
  }

  lemma WroteBoth(counting: bool, s: Snap, x: seq<byte>, m: nat, t: Snap, y: seq<byte>, n: nat, u: Snap)
    requires Wrote(counting, s, x, m, t) && Wrote(counting, t, y, n, u)
    ensures Wrote(counting, s, x + y, m + n, u)
  {
    if !counting && !s.full && s.p + |x + y| <= |s.bytes| {
      assert t.bytes[..t.p] == s.bytes[..s.p] + x;
      assert t.bytes[t.p + |y|..] == s.bytes[s.p + |x + y|..];
      assert u.bytes == s.bytes[..s.p] + (x + y) + s.bytes[s.p + |x + y|..];
    }
  }

  lemma WroteNothing(counting: bool, s: Snap)
    requires s.p <= |s.bytes|
    ensures Wrote(counting, s, [], 0, s)
  {
    assert s.bytes[..s.p] + [] + s.bytes[s.p..] == s.bytes;
  }

  /** With `counting` nothing is stored; `full` stands for the NULL put position after an overflow. */
  class Writer {
    const buffer: array<byte>
    const counting: bool
    var p: nat
    var full: bool

    constructor (buffer: array<byte>, counting: bool)
      ensures this.buffer == buffer && this.counting == counting && p == 0 && !full
    {
      this.buffer, this.counting, p, full := buffer, counting, 0, false;
    }

    ghost function State(): Snap
      reads this, buffer
    {
      Snap(p, full, buffer[..])
    }

    method StoreCtrl(ctrl: nat, kind: nat) returns (size: nat)
      requires p <= buffer.Length && ctrl < 4 && kind < 8
      modifies this, buffer
      ensures Wrote(counting, old(State()), [CtrlByte(ctrl, kind)], size, State())
    {
      size := 1;
      if !counting {
        if full || buffer.Length - p < size {
          size := 0;
          full := true;
        } else {
          buffer[p] := CtrlByte(ctrl, kind);
          p := p + 1;
        }
      }
    }

    method StoreStr(s: seq<byte>) returns (size: nat)
      requires p <= buffer.Length
      modifies this, buffer
      ensures Wrote(counting, old(State()), EncodeStr(s), size, State())
    {
      size := 4 + |s|;
      if !counting {
        if full || buffer.Length - p < size {
          size := 0;
          full := true;
        } else {
          var bytes := EncodeStr(s);
          for i := 0 to size
            modifies buffer
            invariant forall k :: 0 <= k < i ==> buffer[p + k] == bytes[k]
            invariant forall k :: 0 <= k < p || p + i <= k < buffer.Length ==> buffer[k] == old(buffer[k])
          {
            buffer[p + i] := bytes[i];
          }
          p := p + size;
        }
      }
    }

    method StoreBase(ctrl: nat, kind: nat, name: seq<byte>, value: seq<byte>) returns (size: nat)
      requires p <= buffer.Length && ctrl < 4 && kind < 8
      modifies this, buffer
      ensures Wrote(counting, old(State()), EncodeBase(ctrl, kind, name, value), size, State())
    {
      var l := StoreCtrl(ctrl, kind);
      ghost var s := State();
      var m := StoreStr(name);
      ghost var t := State();
      var n := StoreStr(value);
      WroteBoth(counting, old(State()), [CtrlByte(ctrl, kind)], l, s, EncodeStr(name), m, t);
      WroteBoth(counting, old(State()), [CtrlByte(ctrl, kind)] + EncodeStr(name), l + m, t, EncodeStr(value), n,
        State());
      size := l + m + n;
    }

    method StoreAttrs(attrs: seq<Attr>) returns (size: nat)
      requires p <= buffer.Length
      modifies this, buffer
      ensures Wrote(counting, old(State()), EncodeAttrs(attrs), size, State())
    {
      size := 0;
      WroteNothing(counting, State());
      for j := 0 to |attrs|
        invariant p <= buffer.Length
        invariant Wrote(counting, old(State()), EncodeAttrs(attrs[..j]), size, State())
      {
        hide Wrote, EncodeBase;
        ghost var before, x := State(), EncodeBase(CTRL_ATTR, 0, attrs[j].name, attrs[j].value);
        var n := StoreBase(CTRL_ATTR, 0, attrs[j].name, attrs[j].value);
        WroteBoth(counting, old(State()), EncodeAttrs(attrs[..j]), size, before, x, n, State());
        EncodeAttrsInOrder(attrs, j);
        size := size + n;
        WroteWithin(counting, old(State()), EncodeAttrs(attrs[..j + 1]), size, State());
      }
      assert attrs[..|attrs|] == attrs;
    }

    /** One pass through the loop over the children, after the first `j` of them. */
    method StoreKid(a: Arena, i: nat, j: nat, ghost s: Snap, had: nat) returns (size: nat)
      requires p <= buffer.Length && Wf(a) && i < |a| && j < |a[i].kids|
      requires Wrote(counting, s, EncodeChildren(TreeAt(a, i).children[..j], true), had, State())
      modifies this, buffer
      ensures p <= buffer.Length
      ensures Wrote(counting, s, EncodeChildren(TreeAt(a, i).children[..j + 1], true), size, State())
      decreases |a| - i, 0
    {
      assert KidWf(a, i, a[i].kids[j]);
      ghost var ts, before := TreeAt(a, i).children, State();
      var ctrl := if j == 0 then CTRL_NODE else CTRL_SIBL;
      hide EncodeNode, EncodeChildren, Wrote, Wf;
      var n := StoreNode(a, a[i].kids[j], ctrl, false);
      WroteBoth(counting, s, EncodeChildren(ts[..j], true), had, before, EncodeNode(ts[j], ctrl, false), n, State());
      EncodeChildrenInOrder(ts, true, j);
      size := had + n;
      WroteWithin(counting, s, EncodeChildren(ts[..j + 1], true), size, State());
    }

    method StoreKids(a: Arena, i: nat) returns (size: nat)
      requires p <= buffer.Length && Wf(a) && i < |a|
      modifies this, buffer
      ensures Wrote(counting, old(State()), EncodeChildren(TreeAt(a, i).children, true), size, State())
      decreases |a| - i, 1
    {
      size := 0;
      ghost var ts := TreeAt(a, i).children;
      WroteNothing(counting, State());
      hide Wrote, EncodeNode;
      for j := 0 to |a[i].kids|
        invariant p <= buffer.Length
        invariant Wrote(counting, old(State()), EncodeChildren(ts[..j], true), size, State())
      {
        size := StoreKid(a, i, j, old(State()), size);
      }
      assert ts[..|ts|] == ts;
    }

    /** All of a node but the byte that closes it. */
    method StoreOpen(a: Arena, i: nat, ctrl: nat) returns (size: nat)
      requires p <= buffer.Length && Wf(a) && i < |a| && ctrl < 4
      modifies this, buffer
      ensures Wrote(counting, old(State()), EncodeOpen(TreeAt(a, i), ctrl), size, State())
      decreases |a| - i, 2
    {
      hide Wrote, EncodeBase, EncodeAttrs, EncodeChildren, TreeAt, Wf, KindCode;
      FieldsOfCell(a, i);
      ghost var t, s0 := TreeAt(a, i), State();
      ghost var x := EncodeBase(ctrl, KindCode(t.kind), t.name, t.value);
      var base := StoreBase(ctrl, KindCode(a[i].kind), a[i].name, a[i].value);
      ghost var s1 := State();
      WroteWithin(counting, s0, x, base, s1);
      var attrs := StoreAttrs(a[i].attrs);
      ghost var s2 := State();
      WroteBoth(counting, s0, x, base, s1, EncodeAttrs(t.attrs), attrs, s2);
      WroteWithin(counting, s0, x + EncodeAttrs(t.attrs), base + attrs, s2);
      var kids := StoreKids(a, i);
      size := base + attrs + kids;
      WroteBoth(counting, s0, x + EncodeAttrs(t.attrs), base + attrs, s2, EncodeChildren(t.children, true), kids,
        State());
    }

    /** The recursive writer, on the node stored in cell `i`. */
    method StoreNode(a: Arena, i: nat, ctrl: nat, top: bool) returns (size: nat)
      requires p <= buffer.Length && Wf(a) && i < |a| && ctrl < 4
      modifies this, buffer
      ensures Wrote(counting, old(State()), EncodeNode(TreeAt(a, i), ctrl, top), size, State())
      decreases |a| - i, 3
    {
      hide Wrote, EncodeOpen, EncodeNode, TreeAt, Wf, CtrlByte;
      ghost var s0, x := State(), EncodeOpen(TreeAt(a, i), ctrl);
      NodeOfCell(a, i, ctrl, top);
      size := StoreOpen(a, i, ctrl);
      ghost var s1 := State();
      WroteWithin(counting, s0, x, size, s1);
      if a[i].kids != [] || top {
        var n := StoreCtrl(CTRL_END, 0);
        EndByte();
        WroteBoth(counting, s0, x, size, s1, [END_BYTE], n, State());
        size := size + n;
      } else {
        ConcatEmpty(x);
      }
    }
  }

  /** The encoding of a node without the byte that closes it. */
  function EncodeOpen(t: Tree, ctrl: nat): seq<byte>
    requires ctrl < 4
  {
    EncodeBase(ctrl, KindCode(t.kind), t.name, t.value) + EncodeAttrs(t.attrs) + EncodeChildren(t.children, true)
  }

  lemma EndByte()
    ensures [CtrlByte(CTRL_END, 0)] == [END_BYTE]
  {
  }

  lemma NodeOfCell(a: Arena, i: nat, ctrl: nat, top: bool)
    requires Wf(a) && i < |a| && ctrl < 4
    ensures var t := TreeAt(a, i);
            EncodeNode(t, ctrl, top) == EncodeOpen(t, ctrl) + if a[i].kids != [] || top then [END_BYTE] else []
  {
    hide EncodeBase, EncodeAttrs, EncodeChildren;
  }

  lemma FieldsOfCell(a: Arena, i: nat)
    requires Wf(a) && i < |a|
    ensures var t := TreeAt(a, i);
            t.kind == a[i].kind && t.name == a[i].name && t.value == a[i].value && t.attrs == a[i].attrs
  {
  }

  lemma WroteWithin(counting: bool, s: Snap, bytes: seq<byte>, size: nat, t: Snap)
    requires Wrote(counting, s, bytes, size, t)
    ensures t.p <= |t.bytes|
  {
  }

  lemma {:induction false} EncodeAttrsInOrder(attrs: seq<Attr>, j: nat)
    requires j < |attrs|
    ensures EncodeAttrs(attrs[..j + 1])
         == EncodeAttrs(attrs[..j]) + EncodeBase(CTRL_ATTR, 0, attrs[j].name, attrs[j].value)
    decreases j
  {
    hide EncodeBase;
    if j > 0 {
      EncodeAttrsInOrder(attrs[1..], j - 1);
      assert attrs[..j + 1][1..] == attrs[1..][..j] && attrs[..j][1..] == attrs[1..][..j - 1];
    } else {
      assert attrs[..1][1..] == [] && attrs[..0] == [];
    }
  }

  lemma {:induction false} EncodeChildrenInOrder(ts: seq<Tree>, first: bool, j: nat)
    requires j < |ts|
    ensures EncodeChildren(ts[..j + 1], first)
         == EncodeChildren(ts[..j], first) + EncodeNode(ts[j], if first && j == 0 then CTRL_NODE else CTRL_SIBL, false)
    decreases j
  {
    hide EncodeNode;
    if j > 0 {
      EncodeChildrenInOrder(ts[1..], false, j - 1);
      assert ts[..j + 1][1..] == ts[1..][..j] && ts[..j][1..] == ts[1..][..j - 1];
    } else {
      assert ts[..1][1..] == [] && ts[..0] == [];
    }
  }

  /**
   Storing a whole message into a buffer of any size: exactly its encoding, or a return
   value of 0 when the buffer is smaller than that.
   */
  method Store(a: Arena, i: nat, buffer: array<byte>) returns (size: nat)
    requires Wf(a) && i < |a|
    modifies buffer
    ensures var e := Encode(TreeAt(a, i));
            if |e| <= buffer.Length then size == |e| && buffer[..] == e + old(buffer[|e|..]) else size == 0
  {
    var w := new Writer(buffer, false);
    size := w.StoreNode(a, i, CTRL_NODE, true);
    if w.full {
      size := 0;
    }
  }

  /** The sizing pass: the same recursion without a buffer. */
  method Size(a: Arena, i: nat) returns (size: nat)
    requires Wf(a) && i < |a|
    ensures size == |Encode(TreeAt(a, i))|
  {
    var none := new byte[0];
    var w := new Writer(none, true);
    size := w.StoreNode(a, i, CTRL_NODE, true);
  }

  /** A request made ready: sizing, then storing into a buffer of that size. */
  method Prepare(a: Arena, i: nat) returns (buffer: array<byte>)
    requires Wf(a) && i < |a|
    ensures fresh(buffer) && buffer[..] == Encode(TreeAt(a, i))
  {
    hide Encode;
    var size := Size(a, i);
    buffer := new byte[size];
    var stored := Store(a, i, buffer);
    assert buffer[..] == Encode(TreeAt(a, i)) + [];
  }

  /** Sending a request: on success the peer has been sent exactly one message more. */
  method Send(a: Arena, i: nat, conn: Sender) returns (ok: bool)
    requires Wf(a) && i < |a|
    modifies conn
    ensures ok <==> Capacity(old(conn.events)) >= |Encode(TreeAt(a, i))|
    ensures ok ==> conn.sent == old(conn.sent) + Encode(TreeAt(a, i))
    ensures !ok ==> conn.sent == old(conn.sent) + Encode(TreeAt(a, i))[..Capacity(old(conn.events))]
  {
    hide Encode;
    var buffer := Prepare(a, i);
    assert |buffer[..]| == buffer.Length;
    ok := conn.SendAll(buffer);
  }
}
