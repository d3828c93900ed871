/**
 The iterative reader as a machine over an arena: a cursor that control bytes move up and
 down, one step for each pass through the loop.
 */
module WireReader {
  import opened Bytes
  import opened XmlTree
  import opened WireFormat

  /** Stands for a NULL node pointer. */
  const NONE: int := -1

  /**
   `node` is where the reader stands, `root` the first node that it read, `first` holds
   before the first control byte.
   */
  datatype Cursor = Cursor(arena: Arena, node: int, root: int, first: bool)

  /**
   `Bad` is a message refused with EBADMSG, `Starved` an input that ended too early, and
   `Lost` the case in which the cursor has climbed past the topmost node, which has no
   defined behaviour.
   */
  datatype Step = Next(cursor: Cursor, rest: seq<byte>) | Halt(arena: Arena, rest: seq<byte>) | Bad | Starved | Lost

  datatype Read = Got(s: seq<byte>, rest: seq<byte>) | Short

  /** A length, then as many bytes; what is kept is a C string. */
  function TakeStr(input: seq<byte>): (r: Read)
    ensures r.Got? ==> |r.rest| + 4 <= |input| && NulFree(r.s)
  {
    if |input| < 4 then Short
    else
      var n := FromBe32(input[..4]);
      if |input| < 4 + n then Short else Got(CStr(input[4..4 + n]), input[4 + n..])
  }

  datatype ReadPair = Pair(name: seq<byte>, value: seq<byte>, rest: seq<byte>) | NoPair

  function TakePair(input: seq<byte>): (r: ReadPair)
    ensures r.Pair? ==> |r.rest| + 8 <= |input|
  {
    match TakeStr(input)
    case Short => NoPair
    case Got(name, more) =>
      match TakeStr(more)
      case Short => NoPair
      case Got(value, rest) => Pair(name, value, rest)
  }

  /** Appends a cell below `p` and lifts the text of a DATA cell into an empty parent. */
  function Append(a: Arena, p: nat, kind: Kind, name: seq<byte>, value: seq<byte>): (r: Arena)
    requires p < |a|
    ensures |r| == |a| + 1
    ensures Wf(a) ==> Wf(r)
  {
    var c := Cell(kind, name, value, [], p, []);
    var r := Link(a, p, c);
    assert Wf(a) ==> Wf(r) by {
      if Wf(a) {
        LinkWf(a, p, c);
      }
    }
    if kind == Data && a[p].value == [] then
      SameLinks(r, p, r[p].(value := value));
      r[p := r[p].(value := value)]
    else r
  }

  ghost predicate Ready(c: Cursor) {
    && Wf(c.arena)
    && NONE <= c.node < |c.arena| && NONE <= c.root < |c.arena|
  }

  function StepNode(c: Cursor, top: nat, ctrl: nat, kind: Kind, input: seq<byte>): (r: Step)
    requires Ready(c) && c.node != NONE && (ctrl == CTRL_NODE || ctrl == CTRL_SIBL)
    ensures r.Next? ==> Ready(r.cursor) && |r.rest| + 8 <= |input|
    ensures !r.Halt? && !r.Lost?
  {
    var a, node, parent := c.arena, c.node, c.arena[c.node].parent;
    if kind == Document then
      if !c.first || node != top || a[node].kind != Document then Bad
      else if ctrl != CTRL_NODE then Bad
      else
        match TakePair(input)
        case NoPair => Starved
        case Pair(name, value, rest) =>
          SameLinks(a, node, a[node].(name := name, value := value));
          Next(Cursor(a[node := a[node].(name := name, value := value)], node, node, false), rest)
    else if ctrl == CTRL_SIBL && parent == NONE then Bad
    else
      match TakePair(input)
      case NoPair => Starved
      case Pair(name, value, rest) =>
        if !NameFits(kind, name) then Bad
        else
          var p := if ctrl == CTRL_NODE then node else parent;
          Next(Cursor(Append(a, p, kind, name, value), |a|, if c.root == NONE then |a| else c.root, false), rest)
  }

  function StepAttr(c: Cursor, input: seq<byte>): (r: Step)
    requires Ready(c) && c.node != NONE
    ensures r.Next? ==> Ready(r.cursor) && |r.rest| + 8 <= |input|
    ensures !r.Halt? && !r.Lost?
  {
    var a, node := c.arena, c.node;
    if a[node].parent == NONE then Bad
    else
      match TakePair(input)
      case NoPair => Starved
      case Pair(name, value, rest) =>
        if name == [] then Bad
        else
          SameLinks(a, node, a[node].(attrs := a[node].attrs + [Attr(name, value)]));
          Next(c.(arena := a[node := a[node].(attrs := a[node].attrs + [Attr(name, value)])], first := false), rest)
  }

  /** One pass through the loop of the reader. */
  function StepOn(c: Cursor, top: nat, input: seq<byte>): (r: Step)
    requires Ready(c)
    ensures r.Next? ==> Ready(r.cursor)
    ensures r.Next? || r.Halt? ==> |r.rest| < |input|
  {
    if c.node == NONE then Lost
    else if input == [] then Starved
    else
      var ctrl, code, rest := input[0] / 64, input[0] % 64, input[1..];
      if code > 7 then Bad
      else if ctrl == CTRL_NODE || ctrl == CTRL_SIBL then StepNode(c, top, ctrl, KindOf(code), rest)
      else if ctrl == CTRL_ATTR then StepAttr(c, rest)
      else
        var parent := c.arena[c.node].parent;
        if c.node == c.root || parent == c.root then Halt(c.arena, rest)
        else Next(c.(node := parent, first := false), rest)
  }

  /** The whole loop, started below node `top`. */
  function Run(c: Cursor, top: nat, input: seq<byte>): (r: Step)
    requires Ready(c)
    ensures !r.Next? && (r.Halt? ==> |r.rest| < |input|)
    decreases |input|
  {
    var s := StepOn(c, top, input);
    if s.Next? then Run(s.cursor, top, s.rest) else s
  }

  /** Reading a message into a document whose only node is its root. */
  function Decode(input: seq<byte>): Step {
    Run(Cursor(EmptyDocument(), 0, NONE, true), 0, input)
  }

  function EmptyDocument(): (a: Arena)
    ensures Wf(a)
  {
    [Cell(Document, [], [], [], NONE, [])]
  }

  // ---- what it asks memory for

  /** An empty string takes no memory. */
  function StrRequests(input: seq<byte>): (r: seq<Request>) {
    if |input| < 4 || FromBe32(input[..4]) == 0 then [] else [Chars(FromBe32(input[..4]) + 1)]
  }

  function PairRequests(input: seq<byte>): (r: seq<Request>) {
    match TakeStr(input)
    case Short => []
    case Got(_, more) => StrRequests(input) + StrRequests(more)
  }

  /** The requests of one pass, which the bytes before the cursor decide. */
  function StepRequests(input: seq<byte>): (r: seq<Request>) {
    if input == [] then []
    else
      var ctrl, code, rest := input[0] / 64, input[0] % 64, input[1..];
      if code > 7 || ctrl == CTRL_END then []
      else if ctrl == CTRL_ATTR then PairRequests(rest) + [AttrCell]
      else PairRequests(rest) + if KindOf(code) == Document then [] else [NodeCell]
  }

  /** What the control byte decides. */
  lemma StepOnByte(c: Cursor, top: nat, input: seq<byte>)
    requires Ready(c)
    ensures c.node == NONE ==> StepOn(c, top, input) == Lost
    ensures c.node != NONE && input == [] ==> StepOn(c, top, input) == Starved
    ensures c.node != NONE && input != [] && input[0] % 64 > 7 ==> StepOn(c, top, input) == Bad
    ensures c.node != NONE && input != [] && input[0] % 64 <= 7 ==>
              var ctrl, kind, rest := input[0] / 64, KindOf(input[0] % 64), input[1..];
              if ctrl == CTRL_NODE || ctrl == CTRL_SIBL then
                && StepOn(c, top, input) == StepNode(c, top, ctrl, kind, rest)
                && StepRequests(input) == PairRequests(rest) + if kind == Document then [] else [NodeCell]
              else if ctrl == CTRL_ATTR then
                StepOn(c, top, input) == StepAttr(c, rest) && StepRequests(input) == PairRequests(rest) + [AttrCell]
              else
                var parent := c.arena[c.node].parent;
                && StepRequests(input) == []
                && StepOn(c, top, input) == if c.node == c.root || parent == c.root then Halt(c.arena, rest)
                                            else Next(c.(node := parent, first := false), rest)
  {
    hide PairRequests, StepNode, StepAttr;
  }

  /** The loop goes on from where one pass has come. */
  lemma RunPass(c: Cursor, top: nat, input: seq<byte>)
    requires Ready(c)
    ensures var s := StepOn(c, top, input);
            if s.Next? then
              && Run(c, top, input) == Run(s.cursor, top, s.rest)
              && RunRequests(c, top, input) == StepRequests(input) + RunRequests(s.cursor, top, s.rest)
            else
              Run(c, top, input) == s && RunRequests(c, top, input) == []
  {
    hide StepOn, StepRequests;
  }

  function RunRequests(c: Cursor, top: nat, input: seq<byte>): (r: seq<Request>)
    requires Ready(c)
    decreases |input|
  {
    var s := StepOn(c, top, input);
    if s.Next? then StepRequests(input) + RunRequests(s.cursor, top, s.rest) else []
  }
}
