/**
 How much memory a response takes when it is read, and how much when it is copied into the cache:
 a copy has strings of its own for what is empty or shared in the document that was read.
 */
module ResponseMemory {
  import opened Bytes
  import opened XmlTree
  import opened WireFormat
  import opened WireMemory
  import opened WireRoundTrip
  import opened XmlCopy
  import opened Pool

  /** The sizes of the cells on a machine with words of 8 bytes. */
  const NODE_SIZE: nat := 104
  const ATTR_SIZE: nat := 64

  /** The memory of a response: the buffer in it, and blocks from the heap. */
  const BUFFER_SIZE: nat := 2048
  const BLOCK_SIZE: nat := 4096

  function SizeOf(r: Request): nat {
    match r
    case Chars(n) => n
    case NodeCell => NODE_SIZE
    case AttrCell => ATTR_SIZE
  }

  function SizesFor(rs: seq<Request>): (ns: seq<nat>)
    ensures |ns| == |rs|
  {
    if rs == [] then [] else [SizeOf(rs[0])] + SizesFor(rs[1..])
  }

  /** What the pool of a response has taken from the heap after these requests. */
  function DynamicOf(rs: seq<Request>): nat {
    TakeAll(Level(BUFFER_SIZE, 0), BLOCK_SIZE, SizesFor(rs)).dynamic
  }

  /** The root cell first, and then what the reader asks for. */
  function ReadDynamic(t: Tree): nat {
    DynamicOf([NodeCell] + ReadRequests(t))
  }

  function CopyDynamic(document: Tree): nat {
    DynamicOf(CopyRequests(document))
  }

  lemma {:induction false} SumOfConcat(x: seq<Request>, y: seq<Request>)
    ensures AlignedSum(SizesFor(x + y)) == AlignedSum(SizesFor(x)) + AlignedSum(SizesFor(y))
    decreases |x|
  {
    hide SizeOf, Aligned;
    if x == [] {
      assert x + y == y;
    } else {
      assert (x + y)[1..] == x[1..] + y;
      SumOfConcat(x[1..], y);
      SumStep(x);
      SumStep(x + y);
    }
  }

  lemma SumStep(x: seq<Request>)
    requires x != []
    ensures AlignedSum(SizesFor(x)) == Aligned(SizeOf(x[0])) + AlignedSum(SizesFor(x[1..]))
  {
    hide SizeOf, Aligned;
    assert SizesFor(x)[1..] == SizesFor(x[1..]);
  }

  lemma SumOfOne(r: Request)
    ensures AlignedSum(SizesFor([r])) == Aligned(SizeOf(r))
  {
    hide Aligned;
    SumStep([r]);
    assert [r][1..] == [];
  }

  // ---- a copy never asks for less

  function Need(rs: seq<Request>): nat {
    AlignedSum(SizesFor(rs))
  }

  lemma NeedOfText(s: seq<byte>)
    ensures Need(CharsOf(s)) <= Aligned(|s| + 1)
  {
    hide Aligned;
    if s != [] {
      SumOfOne(Chars(|s| + 1));
    }
  }

  lemma NeedOfThree(x: Request, y: Request, z: Request)
    ensures Need([x, y, z]) == Aligned(SizeOf(x)) + Aligned(SizeOf(y)) + Aligned(SizeOf(z))
  {
    hide Aligned, SizeOf, Need;
    assert [x, y, z] == [x] + [y] + [z];
    NeedOfTwo([x], [y]);
    NeedOfTwo([x] + [y], [z]);
    NeedOfOne(x);
    NeedOfOne(y);
    NeedOfOne(z);
  }

  lemma NeedOfOne(x: Request)
    ensures Need([x]) == Aligned(SizeOf(x))
  {
    hide Aligned, SizeOf;
    SumOfOne(x);
  }

  lemma NeedOfTwo(x: seq<Request>, y: seq<Request>)
    ensures Need(x + y) == Need(x) + Need(y)
  {
    SumOfConcat(x, y);
  }

  lemma {:induction false} AttrsNeedLess(attrs: seq<Attr>)
    ensures Need(ReadAttrRequests(attrs)) <= Need(CopyAttrRequests(attrs))
    decreases |attrs|
  {
    hide Need, Aligned, CharsOf;
    if attrs == [] {
    } else {
      var n := |attrs| - 1;
      var x, xs := attrs[n], attrs[..n];
      assert attrs == xs + [x];
      LastAttr(xs, x);
      AttrsNeedLess(xs);
      NeedOfTwo(ReadAttrRequests(xs), CharsOf(x.name) + CharsOf(x.value) + [AttrCell]);
      NeedOfTwo(CharsOf(x.name) + CharsOf(x.value), [AttrCell]);
      NeedOfTwo(CharsOf(x.name), CharsOf(x.value));
      NeedOfOne(AttrCell);
      NeedOfText(x.name);
      NeedOfText(x.value);
      NeedOfThree(Chars(|x.name| + 1), Chars(|x.value| + 1), AttrCell);
      NeedOfTwo(CopyAttrRequests(xs), AttrRequests(x));
    }
  }

  lemma {:induction false} LastAttr(xs: seq<Attr>, x: Attr)
    ensures ReadAttrRequests(xs + [x]) == ReadAttrRequests(xs) + (CharsOf(x.name) + CharsOf(x.value) + [AttrCell])
    decreases |xs|
  {
    hide CharsOf;
    if xs == [] {
      assert xs + [x] == [x] && [x][1..] == [];
    } else {
      assert (xs + [x])[1..] == xs[1..] + [x];
      LastAttr(xs[1..], x);
    }
  }

  /** The strings of a node: a lifted text is shared by the document that is read. */
  lemma StringsNeedLess(t: Tree)
    ensures Need(CharsOf(t.name) + CharsOf(t.value)) <= Aligned(|t.name| + 1) + Aligned(|Normal(t).value| + 1)
  {
    hide Need, Aligned, CharsOf, Lift;
    NeedOfTwo(CharsOf(t.name), CharsOf(t.value));
    NeedOfText(t.name);
    if t.value == [] {
      NothingNeeded();
    } else {
      NeedOfText(t.value);
    }
  }

  lemma NothingNeeded()
    ensures CharsOf([]) == [] && Need([]) == 0
  {
  }

  lemma {:induction false} NodeNeedsLess(t: Tree)
    ensures Need(ReadRequests(t)) + (if t.kind == Document then Aligned(NODE_SIZE) else 0)
         <= Need(CopyRequests(Normal(t)))
    decreases t, 1
  {
    hide Need, Aligned, CharsOf, Lift, ReadAttrRequests, ReadKidRequests, CopyAttrRequests, CopyKidRequests;
    var n := Normal(t);
    var x, y := CharsOf(t.name) + CharsOf(t.value), ReadAttrRequests(t.attrs);
    StringsNeedLess(t);
    AttrsNeedLess(t.attrs);
    KidsNeedLess(t.children, n.children);
    NeedOfTwo(x, CellOf(t.kind));
    NeedOfTwo(x + CellOf(t.kind), y);
    NeedOfTwo(x + CellOf(t.kind) + y, ReadKidRequests(t.children));
    NeedOfOne(NodeCell);
    NothingNeeded();
    var z := [Chars(|n.name| + 1), Chars(|n.value| + 1), NodeCell];
    NeedOfThree(z[0], z[1], z[2]);
    NeedOfTwo(z, CopyAttrRequests(n.attrs));
    NeedOfTwo(z + CopyAttrRequests(n.attrs), CopyKidRequests(n.children));
  }

  lemma {:induction false} KidsNeedLess(ts: seq<Tree>, ns: seq<Tree>)
    requires |ns| == |ts| && forall i :: 0 <= i < |ts| ==> ns[i] == Normal(ts[i])
    ensures Need(ReadKidRequests(ts)) <= Need(CopyKidRequests(ns))
    decreases ts, 0
  {
    hide Need, Aligned, ReadRequests, CopyRequests, Normal;
    if ts == [] {
    } else {
      NodeNeedsLess(ts[0]);
      KidsNeedLess(ts[1..], ns[1..]);
      NeedOfTwo(ReadRequests(ts[0]), ReadKidRequests(ts[1..]));
      NeedOfTwo(CopyRequests(ns[0]), CopyKidRequests(ns[1..]));
      assert Aligned(NODE_SIZE) >= 0;
    }
  }

  lemma MessageNeedsLess(t: Tree)
    requires WireMessage(t)
    ensures Need([NodeCell] + ReadRequests(t)) <= Need(CopyRequests(Delivered(t)))
  {
    hide Need, Aligned, ReadRequests, CopyRequests, Normal;
    NodeNeedsLess(t);
    NeedOfTwo([NodeCell], ReadRequests(t));
    NeedOfOne(NodeCell);
    if t.kind != Document {
      RootNeeds(t);
    }
  }

  /** The copy of a root with one child. */
  lemma RootNeeds(t: Tree)
    ensures var d := Tree(Document, [], [], [], [t]);
            Need(CopyRequests(Normal(d))) >= Aligned(NODE_SIZE) + Need(CopyRequests(Normal(t)))
  {
    hide Need, Aligned, Lift;
    var d := Tree(Document, [], [], [], [t]);
    var n := Normal(d);
    assert n.children == [Normal(t)];
    var z := [Chars(|n.name| + 1), Chars(|n.value| + 1), NodeCell];
    NeedOfThree(z[0], z[1], z[2]);
    NeedOfTwo(z, CopyRequests(Normal(t)));
    OneKid(Normal(t));
    assert CopyRequests(n) == z + [] + CopyRequests(Normal(t));
    ConcatEmpty(z);
  }

  lemma OneKid(t: Tree)
    ensures CopyKidRequests([t]) == CopyRequests(t)
  {
    assert [t][1..] == [];
  }

  /** A response whose copy fits into its own buffer takes as much as its copy: nothing from the heap. */
  lemma SmallResponsesAreExact(t: Tree)
    requires WireMessage(t) && Need(CopyRequests(Delivered(t))) <= BUFFER_SIZE
    ensures ReadDynamic(t) == CopyDynamic(Delivered(t)) == 0
  {
    hide ReadRequests, CopyRequests, WireMessage, Delivered, Aligned;
    MessageNeedsLess(t);
    FitsWithoutHeap(Level(BUFFER_SIZE, 0), BLOCK_SIZE, SizesFor([NodeCell] + ReadRequests(t)));
    FitsWithoutHeap(Level(BUFFER_SIZE, 0), BLOCK_SIZE, SizesFor(CopyRequests(Delivered(t))));
  }

  // ---- a response whose copy takes more

  /** "response" with a text that just fits into the buffer. */
  function TightResponse(): (t: Tree) {
    Tree(Element, [0x72, 0x65, 0x73, 0x70, 0x6F, 0x6E, 0x73, 0x65], seq(1823, _ => 0x61), [], [])
  }

  lemma TightIsMessage()
    ensures WireMessage(TightResponse()) && Delivered(TightResponse()) == Tree(Document, [], [], [], [TightResponse()])
  {
    var t := TightResponse();
    var d := Tree(Document, [], [], [], [t]);
    assert d.children[1..] == [];
    assert Normal(t).children == [] && Normal(t) == t;
    assert Normal(d).children == [t];
  }

  lemma TightRequests()
    ensures ReadRequests(TightResponse()) == [Chars(9), Chars(1824), NodeCell]
    ensures CopyRequests(Tree(Document, [], [], [], [TightResponse()]))
         == [Chars(1), Chars(1), NodeCell, Chars(9), Chars(1824), NodeCell]
  {
    var t := TightResponse();
    assert ReadAttrRequests(t.attrs) == [] && ReadKidRequests(t.children) == [];
    assert CopyAttrRequests(t.attrs) == [] && CopyKidRequests(t.children) == [];
    OneKid(t);
    assert CopyRequests(t) == [Chars(9), Chars(1824), NodeCell];
  }

  /** One request after another, from level to level. */
  lemma TakeStep(l: Level, r: Request, rs: seq<Request>, m: Level)
    requires Take(l, BLOCK_SIZE, Aligned(SizeOf(r))) == m
    ensures TakeAll(l, BLOCK_SIZE, SizesFor([r] + rs)) == TakeAll(m, BLOCK_SIZE, SizesFor(rs))
  {
    hide Take, Aligned, SizeOf;
    assert ([r] + rs)[1..] == rs;
    assert SizesFor([r] + rs)[1..] == SizesFor(rs);
  }

  lemma NoneTaken(l: Level)
    ensures TakeAll(l, BLOCK_SIZE, SizesFor([])) == l
  {
  }

  lemma ReadLevels()
    ensures DynamicOf([NodeCell] + ([Chars(9)] + ([Chars(1824)] + ([NodeCell] + [])))) == 0
  {
    hide TakeAll, SizesFor;
    TakeStep(Level(2048, 0), NodeCell, [Chars(9)] + ([Chars(1824)] + ([NodeCell] + [])), Level(1944, 0));
    TakeStep(Level(1944, 0), Chars(9), [Chars(1824)] + ([NodeCell] + []), Level(1928, 0));
    TakeStep(Level(1928, 0), Chars(1824), [NodeCell] + [], Level(104, 0));
    TakeStep(Level(104, 0), NodeCell, [], Level(0, 0));
    NoneTaken(Level(0, 0));
  }

  lemma CopyLevels()
    ensures DynamicOf([Chars(1)] + ([Chars(1)] + ([NodeCell] + ([Chars(9)] + ([Chars(1824)] + ([NodeCell] + []))))))
         == BLOCK_SIZE
  {
    hide TakeAll, SizesFor;
    var rest := [Chars(9)] + ([Chars(1824)] + ([NodeCell] + []));
    TakeStep(Level(2048, 0), Chars(1), [Chars(1)] + ([NodeCell] + rest), Level(2040, 0));
    TakeStep(Level(2040, 0), Chars(1), [NodeCell] + rest, Level(2032, 0));
    TakeStep(Level(2032, 0), NodeCell, rest, Level(1928, 0));
    TakeStep(Level(1928, 0), Chars(9), [Chars(1824)] + ([NodeCell] + []), Level(1912, 0));
    TakeStep(Level(1912, 0), Chars(1824), [NodeCell] + [], Level(88, 0));
    TakeStep(Level(88, 0), NodeCell, [], Level(3984, 4096));
    NoneTaken(Level(3984, 4096));
  }

  /** It is read into its own buffer, and its copy needs a block from the heap. */
  lemma CopyTakesMore()
    ensures var t := TightResponse();
            WireMessage(t) && ReadDynamic(t) == 0 && CopyDynamic(Delivered(t)) == BLOCK_SIZE
  {
    hide TightResponse, ReadRequests, CopyRequests, WireMessage, Delivered, DynamicOf;
    TightIsMessage();
    TightRequests();
    ReadLevels();
    CopyLevels();
    assert [NodeCell] + ReadRequests(TightResponse())
        == [NodeCell] + ([Chars(9)] + ([Chars(1824)] + ([NodeCell] + [])));
    assert CopyRequests(Delivered(TightResponse()))
        == [Chars(1)] + ([Chars(1)] + ([NodeCell] + ([Chars(9)] + ([Chars(1824)] + ([NodeCell] + [])))));
  }
}
