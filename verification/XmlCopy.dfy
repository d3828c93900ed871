/** Copying a document into another one, cell by cell, and comparing two documents. */
module XmlCopy {
  import opened Bytes
  import opened XmlTree

  /** The fields of a node, without its links. */
  function NewCell(c: Cell, attrs: seq<Attr>): Cell {
    Cell(c.kind, c.name, c.value, attrs, -1, [])
  }

  /** `ndm_xml_node_append_child` for a cell that has no parent yet. */
  function Append(a: Arena, p: nat, c: nat): (r: Arena)
    requires p < c < |a|
    ensures |r| == |a|
  {
    a[p := a[p].(kids := a[p].kids + [c])][c := a[c].(parent := p)]
  }

  lemma AppendWf(a: Arena, p: nat, c: nat)
    requires Wf(a) && p < c < |a| && a[c].parent == -1
    ensures Wf(Append(a, p, c))
  {
    var r := Append(a, p, c);
    forall i, j | 0 <= i < |r| && 0 <= j < |r[i].kids|
      ensures KidWf(r, i, r[i].kids[j])
    {
      if i != p || j < |a[p].kids| {
        assert KidWf(a, i, a[i].kids[j]);
      }
    }
  }

  /** What is below a cell does not depend on what is above it. */
  lemma AppendedTree(a: Arena, p: nat, c: nat)
    requires Wf(a) && p < c < |a| && Wf(Append(a, p, c))
    ensures TreeAt(Append(a, p, c), c) == TreeAt(a, c)
  {
    var r, ks := Append(a, p, c), a[c].kids;
    forall j | 0 <= j < |ks|
      ensures TreeAt(r, ks[j]) == TreeAt(a, ks[j])
    {
      assert KidWf(a, c, ks[j]);
      WholeIsClosed(a, ks[j]);
      TreeAtFrame(a, r, ks[j], |a|);
    }
  }

  lemma WholeIsClosed(a: Arena, i: nat)
    requires Wf(a)
    ensures Closed(a, i, |a|)
  {
    forall h, j | i <= h < |a| && 0 <= j < |a[h].kids|
      ensures a[h].kids[j] < |a|
    {
      assert KidWf(a, h, a[h].kids[j]);
    }
  }

  /** The first children of cell `n` are copies of the first children of cell `i`. */
  ghost predicate CopiedKids(a: Arena, i: nat, b: Arena, n: nat) {
    && Wf(a) && Wf(b) && i < |a| && n < |b| && |b[n].kids| <= |a[i].kids|
    && forall j :: 0 <= j < |b[n].kids| ==> SameTree(a, a[i].kids[j], b, b[n].kids[j])
  }

  ghost predicate SameTree(a: Arena, i: nat, b: Arena, j: nat) {
    Wf(a) && Wf(b) && i < |a| && j < |b| && TreeAt(a, i) == TreeAt(b, j)
  }

  /** A tree stays the same while cells are added after it and cells before it change. */
  lemma SameTreeLater(a: Arena, i: nat, b: Arena, b': Arena, j: nat)
    requires SameTree(a, i, b, j) && Wf(b') && |b| <= |b'| && forall k :: j <= k < |b| ==> b[k] == b'[k]
    ensures SameTree(a, i, b', j)
  {
    WholeIsClosed(b, j);
    TreeAtFrame(b, b', j, |b|);
  }

  /** One more child: the copy that has just been made, at `c`. */
  lemma KidAdded(a: Arena, i: nat, b: Arena, n: nat, c: nat, b': Arena)
    requires CopiedKids(a, i, b, n) && |b[n].kids| < |a[i].kids| && n < c == |b| < |b'| && Wf(b') && b <= b'
    requires SameTree(a, a[i].kids[|b[n].kids|], b', c) && b'[c].parent == -1
    ensures Wf(Append(b', n, c)) && CopiedKids(a, i, Append(b', n, c), n)
  {
    var r := Append(b', n, c);
    AppendWf(b', n, c);
    AppendedTree(b', n, c);
    forall j | 0 <= j < |r[n].kids|
      ensures SameTree(a, a[i].kids[j], r, r[n].kids[j])
    {
      if j < |b[n].kids| {
        assert KidWf(b, n, b[n].kids[j]);
        SameTreeLater(a, a[i].kids[j], b, r, b[n].kids[j]);
      }
    }
  }

  lemma AllKidsCopied(a: Arena, i: nat, b: Arena, n: nat)
    requires CopiedKids(a, i, b, n) && |b[n].kids| == |a[i].kids|
    requires b[n].kind == a[i].kind && b[n].name == a[i].name && b[n].value == a[i].value && b[n].attrs == a[i].attrs
    ensures SameTree(a, i, b, n)
  {
  }

  lemma CellAdded(b: Arena, c: Cell)
    requires Wf(b) && c.parent == -1 && c.kids == []
    ensures Wf(b + [c])
  {
    var r := b + [c];
    forall i, j | 0 <= i < |r| && 0 <= j < |r[i].kids|
      ensures KidWf(r, i, r[i].kids[j])
    {
      assert KidWf(b, i, b[i].kids[j]);
    }
  }

  // ---- how much memory a copy takes

  /** A name, a value and a cell for the node and for each of its attributes; empty strings, too. */
  function CopyRequests(t: Tree): (r: seq<Request>)
    decreases t, 0
  {
    [Chars(|t.name| + 1), Chars(|t.value| + 1), NodeCell] + CopyAttrRequests(t.attrs) + CopyKidRequests(t.children)
  }

  function CopyAttrRequests(attrs: seq<Attr>): (r: seq<Request>)
    ensures |r| == 3 * |attrs|
  {
    if attrs == [] then [] else CopyAttrRequests(attrs[..|attrs| - 1]) + AttrRequests(attrs[|attrs| - 1])
  }

  function AttrRequests(x: Attr): (r: seq<Request>) {
    [Chars(|x.name| + 1), Chars(|x.value| + 1), AttrCell]
  }

  function CopyKidRequests(ts: seq<Tree>): (r: seq<Request>)
    decreases ts, 0
  {
    if ts == [] then [] else CopyRequests(ts[0]) + CopyKidRequests(ts[1..])
  }

  lemma {:induction false} KidRequestsConcat(x: seq<Tree>, y: seq<Tree>)
    ensures CopyKidRequests(x + y) == CopyKidRequests(x) + CopyKidRequests(y)
    decreases |x|
  {
    hide CopyRequests;
    if x == [] {
      assert x + y == y;
    } else {
      assert (x + y)[1..] == x[1..] + y;
      KidRequestsConcat(x[1..], y);
      ConcatAssoc(CopyRequests(x[0]), CopyKidRequests(x[1..]), CopyKidRequests(y));
    }
  }

  /** The requests for the tree below cell `i` without the children from number `k` on. */
  function RequestsBefore(a: Arena, i: nat, k: nat): (r: seq<Request>)
    requires Wf(a) && i < |a| && k <= |a[i].kids|
  {
    [Chars(|a[i].name| + 1), Chars(|a[i].value| + 1), NodeCell] + CopyAttrRequests(a[i].attrs)
    + CopyKidRequests(TreeAt(a, i).children[..k])
  }

  lemma RequestsOfKid(a: Arena, i: nat, k: nat)
    requires Wf(a) && i < |a| && k < |a[i].kids| && i < a[i].kids[k] < |a|
    ensures RequestsBefore(a, i, k + 1) == RequestsBefore(a, i, k) + CopyRequests(TreeAt(a, a[i].kids[k]))
    ensures |RequestsBefore(a, i, k + 1)| <= |CopyRequests(TreeAt(a, i))|
  {
    hide CopyKidRequests, CopyAttrRequests;
    var ts := TreeAt(a, i).children;
    assert ts[..k + 1] == ts[..k] + [ts[k]] && ts == ts[..k + 1] + ts[k + 1..];
    KidRequestsConcat(ts[..k], [ts[k]]);
    KidRequestsConcat(ts[..k + 1], ts[k + 1..]);
    RequestsOfOne(ts[k]);
  }

  lemma RequestsOfOne(kid: Tree)
    ensures CopyKidRequests([kid]) == CopyRequests(kid)
  {
    assert [kid][1..] == [];
  }

  lemma RequestsOfAll(a: Arena, i: nat)
    requires Wf(a) && i < |a|
    ensures RequestsBefore(a, i, 0)
         == [Chars(|a[i].name| + 1), Chars(|a[i].value| + 1), NodeCell] + CopyAttrRequests(a[i].attrs)
    ensures RequestsBefore(a, i, |a[i].kids|) == CopyRequests(TreeAt(a, i))
    ensures |RequestsBefore(a, i, 0)| <= |CopyRequests(TreeAt(a, i))|
  {
    var ts := TreeAt(a, i).children;
    assert ts[..0] == [] && ts[..|a[i].kids|] == ts;
  }

  /**
   The destination; once an allocation fails, it stays invalid until it is cleared.  `requests` is
   what was asked for.
   */
  class Target {
    var arena: Arena
    var blocks: nat
    var valid: bool
    ghost var requests: seq<Request>

    constructor (blocks: nat)
      ensures arena == [] && this.blocks == blocks && valid && requests == []
    {
      arena, this.blocks, valid := [], blocks, true;
      requests := [];
    }

    method Alloc(ghost r: Request)
      modifies this`blocks, this`valid, this`requests
      ensures requests == old(requests) + [r]
      ensures valid == (old(valid) && old(blocks) > 0)
      ensures blocks == if old(blocks) > 0 then old(blocks) - 1 else 0
    {
      if blocks == 0 {
        valid := false;
      } else {
        blocks := blocks - 1;
      }
      requests := requests + [r];
    }

    /**
     A copy of the tree below cell `i`, behind everything that is there already.  It succeeds
     exactly if there is memory for all of the tree.
     */
    method CopyNode(a: Arena, i: nat) returns (n: nat)
      requires Wf(a) && i < |a| && Wf(arena)
      modifies this
      ensures Wf(arena) && old(arena) <= arena && (valid ==> old(valid))
      ensures valid ==> n == |old(arena)| < |arena| && arena[n].parent == -1 && SameTree(a, i, arena, n)
      ensures old(valid) ==> (valid <==> old(blocks) >= |CopyRequests(TreeAt(a, i))|)
      ensures valid ==> requests == old(requests) + CopyRequests(TreeAt(a, i))
      ensures valid ==> blocks + |requests| == old(blocks) + |old(requests)|
      decreases |a| - i
    {
      hide TreeAt, Wf, SameTree, CopiedKids, Append, CopyRequests, RequestsBefore, CopyAttrRequests;
      n := |arena|;
      ghost var was := arena;
      ghost var need := |CopyRequests(TreeAt(a, i))|;
      RequestsOfAll(a, i);
      Alloc(Chars(|a[i].name| + 1));
      Alloc(Chars(|a[i].value| + 1));
      Alloc(NodeCell);
      if !valid {
        return;
      }
      CellAdded(arena, NewCell(a[i], []));
      arena := arena + [NewCell(a[i], [])];
      CopyAttrs(a, i, n);
      if valid {
        NoKidsYet(a, i, arena, n);
      }
      var k := 0;
      while k < |a[i].kids| && valid
        invariant Wf(arena) && was <= arena && n == |was| < |arena| && (valid ==> old(valid))
        invariant valid ==> arena[n].(kids := []) == NewCell(a[i], a[i].attrs)
        invariant valid ==> CopiedKids(a, i, arena, n) && |arena[n].kids| == k <= |a[i].kids|
        invariant 0 <= k <= |a[i].kids|
        invariant valid ==> requests == old(requests) + RequestsBefore(a, i, k)
        invariant valid ==> blocks + |requests| == old(blocks) + |old(requests)|
        invariant old(valid) && !valid ==> old(blocks) < need
        decreases |a[i].kids| - k, valid
      {
        KidIsLater(a, i, k);
        RequestsOfKid(a, i, k);
        ghost var before := arena;
        var c := CopyNode(a, a[i].kids[k]);
        if valid {
          KidAdded(a, i, before, n, c, arena);
          AppendKeeps(arena, n, c, was);
          arena := Append(arena, n, c);
          k := k + 1;
        }
      }
      if valid {
        AllKidsCopied(a, i, arena, n);
      }
    }

    /** Attributes are appended one by one, as long as there is memory. */
    method CopyAttrs(a: Arena, i: nat, n: nat)
      requires i < |a| && Wf(arena) && n == |arena| - 1 && arena[n] == NewCell(a[i], [])
      modifies this
      ensures Wf(arena) && |arena| == |old(arena)| && arena[..n] == old(arena[..n]) && (valid ==> old(valid))
      ensures valid ==> arena[n] == NewCell(a[i], a[i].attrs)
      ensures old(valid) ==> (valid <==> old(blocks) >= 3 * |a[i].attrs|)
      ensures valid ==> blocks == old(blocks) - 3 * |a[i].attrs|
      ensures valid ==> requests == old(requests) + CopyAttrRequests(a[i].attrs)
    {
      hide Wf;
      var k := 0;
      while k < |a[i].attrs| && valid
        invariant 0 <= k <= |a[i].attrs| && Wf(arena) && |arena| == |old(arena)| && arena[..n] == old(arena[..n])
        invariant (valid ==> old(valid)) && arena[n] == NewCell(a[i], a[i].attrs[..k])
        invariant valid ==> blocks == old(blocks) - 3 * k
        invariant valid ==> requests == old(requests) + CopyAttrRequests(a[i].attrs[..k])
        invariant old(valid) && !valid ==> old(blocks) < 3 * |a[i].attrs|
        decreases |a[i].attrs| - k, valid
      {
        ghost var x, xs, had := a[i].attrs[k], a[i].attrs[..k], requests;
        Alloc(Chars(|a[i].attrs[k].name| + 1));
        Alloc(Chars(|a[i].attrs[k].value| + 1));
        Alloc(AttrCell);
        assert requests == had + AttrRequests(x);
        if valid {
          OneMoreAttr(xs, x);
          SameLinks(arena, n, NewCell(a[i], a[i].attrs[..k + 1]));
          assert a[i].attrs[..k + 1] == a[i].attrs[..k] + [a[i].attrs[k]];
          arena := arena[n := arena[n].(attrs := arena[n].attrs + [a[i].attrs[k]])];
          k := k + 1;
        }
      }
      assert a[i].attrs[..|a[i].attrs|] == a[i].attrs;
    }

    /** The whole document, or nothing, which happens exactly if there is not memory enough for all of it. */
    method Copy(a: Arena) returns (copied: bool)
      requires Wf(a)
      modifies this
      ensures Wf(arena)
      ensures copied ==> if a == [] then arena == [] else SameTree(a, 0, arena, 0)
      ensures !copied ==> arena == [] && a != []
      ensures copied <==> a == [] || old(blocks) >= |CopyRequests(TreeAt(a, 0))|
      ensures copied ==> requests == if a == [] then [] else CopyRequests(TreeAt(a, 0))
    {
      hide TreeAt, SameTree, CopyRequests;
      arena, valid := [], true;
      requests := [];
      copied := true;
      if a != [] {
        var root := CopyNode(a, 0);
        if !valid {
          arena, valid := [], true;
          copied := false;
        }
      }
    }
  }

  lemma OneMoreAttr(xs: seq<Attr>, x: Attr)
    ensures CopyAttrRequests(xs + [x]) == CopyAttrRequests(xs) + AttrRequests(x)
  {
    assert (xs + [x])[..|xs|] == xs;
  }

  lemma NoKidsYet(a: Arena, i: nat, b: Arena, n: nat)
    requires Wf(a) && Wf(b) && i < |a| && n < |b| && b[n].kids == []
    ensures CopiedKids(a, i, b, n)
  {
  }

  lemma KidIsLater(a: Arena, i: nat, k: nat)
    requires Wf(a) && i < |a| && k < |a[i].kids|
    ensures i < a[i].kids[k] < |a|
  {
    assert KidWf(a, i, a[i].kids[k]);
  }

  lemma AppendKeeps(b: Arena, n: nat, c: nat, was: Arena)
    requires was <= b && |was| == n < c < |b|
    ensures was <= Append(b, n, c) && Append(b, n, c)[n] == b[n].(kids := b[n].kids + [c])
  {
  }

  // ---- comparing

  /** Two attribute lists, side by side. */
  method AttrsAreEqual(xs: seq<Attr>, ys: seq<Attr>) returns (equal: bool)
    ensures equal <==> xs == ys
  {
    equal := true;
    var k := 0;
    while k < |xs| && k < |ys| && equal
      invariant 0 <= k <= |xs| && k <= |ys| && (equal ==> xs[..k] == ys[..k]) && (!equal ==> xs != ys)
      decreases |xs| - k
    {
      equal := xs[k] == ys[k];
      k := k + 1;
      assert xs[..k] == xs[..k - 1] + [xs[k - 1]] && ys[..k] == ys[..k - 1] + [ys[k - 1]];
    }
    equal := equal && k == |xs| && k == |ys|;
    assert xs[..|xs|] == xs && ys[..|ys|] == ys;
  }

  /** Two nodes are equal exactly if the trees below them are. */
  method NodesAreEqual(a: Arena, i: nat, b: Arena, j: nat) returns (equal: bool)
    requires Wf(a) && Wf(b) && i < |a| && j < |b|
    ensures equal <==> TreeAt(a, i) == TreeAt(b, j)
    decreases |a| - i
  {
    hide Wf;
    equal := a[i].kind == b[j].kind && a[i].name == b[j].name && a[i].value == b[j].value;
    if equal {
      equal := AttrsAreEqual(a[i].attrs, b[j].attrs);
      if equal {
        var k := 0;
        var s, t := a[i].kids, b[j].kids;
        KidsOfTrees(a, i, b, j);
        while k < |s| && k < |t| && equal
          invariant 0 <= k <= |s| && k <= |t|
          invariant equal ==> forall h :: 0 <= h < k ==> SameKid(a, s, b, t, h)
          invariant !equal ==> exists h :: 0 <= h < k && !SameKid(a, s, b, t, h)
          decreases |s| - k
        {
          KidIsLater(a, i, k);
          KidIsLater(b, j, k);
          equal := NodesAreEqual(a, s[k], b, t[k]);
          assert equal <==> SameKid(a, s, b, t, k);
          k := k + 1;
        }
        equal := equal && k == |s| && k == |t|;
      }
    }
  }

  ghost predicate SameKid(a: Arena, s: seq<nat>, b: Arena, t: seq<nat>, h: nat)
    requires Wf(a) && Wf(b)
  {
    h < |s| && h < |t| && s[h] < |a| && t[h] < |b| && TreeAt(a, s[h]) == TreeAt(b, t[h])
  }

  lemma KidsOfTrees(a: Arena, i: nat, b: Arena, j: nat)
    requires Wf(a) && Wf(b) && i < |a| && j < |b|
    requires a[i].kind == b[j].kind && a[i].name == b[j].name && a[i].value == b[j].value && a[i].attrs == b[j].attrs
    ensures TreeAt(a, i) == TreeAt(b, j) <==>
            |a[i].kids| == |b[j].kids| && forall h :: 0 <= h < |a[i].kids| ==> SameKid(a, a[i].kids, b, b[j].kids, h)
  {
    var x, y, s, t := TreeAt(a, i).children, TreeAt(b, j).children, a[i].kids, b[j].kids;
    forall h | 0 <= h < |s| && h < |t|
      ensures SameKid(a, s, b, t, h) <==> x[h] == y[h]
    {
      KidIsLater(a, i, h);
      KidIsLater(b, j, h);
    }
    assert x == y <==> |x| == |y| && forall h :: 0 <= h < |x| ==> x[h] == y[h];
  }
}
