/**
 The XML documents that the wire protocol carries.  `Tree` is what a document means.
 `Arena` is how it is stored: the cells of one document in the order in which they were
 allocated, a cell naming its parent and its children by index.
 */
module XmlTree {
  import opened Bytes

  datatype Kind = Document | Element | Data | Cdata | Comment | Declaration | Doctype | Pi

  datatype Attr = Attr(name: seq<byte>, value: seq<byte>)

  datatype Tree = Tree(kind: Kind, name: seq<byte>, value: seq<byte>, attrs: seq<Attr>, children: seq<Tree>)

  /** `parent` is -1 for a cell that is linked to no parent. */
  datatype Cell = Cell(kind: Kind, name: seq<byte>, value: seq<byte>, attrs: seq<Attr>, parent: int, kids: seq<nat>)

  type Arena = seq<Cell>

  /** What a document asks its pool for: characters with their terminator, or a cell. */
  datatype Request = Chars(n: nat) | NodeCell | AttrCell

  /** Links agree in both directions, and a child is always allocated after its parent. */
  ghost predicate Wf(a: Arena) {
    && (forall i, j :: 0 <= i < |a| && 0 <= j < |a[i].kids| ==> KidWf(a, i, a[i].kids[j]))
    && (forall i :: 0 <= i < |a| ==> -1 <= a[i].parent < i)
  }

  ghost predicate KidWf(a: Arena, i: nat, k: nat) {
    i < k < |a| && a[k].parent == i
  }

  /** The document below cell `i`. */
  function TreeAt(a: Arena, i: nat): Tree
    requires Wf(a) && i < |a|
    decreases |a| - i
  {
    var ks := a[i].kids;
    Tree(a[i].kind, a[i].name, a[i].value, a[i].attrs,
         seq(|ks|, j requires 0 <= j < |ks| => assert KidWf(a, i, ks[j]); TreeAt(a, ks[j])))
  }

  /** Every link of a cell in [lo, hi) stays in that interval. */
  ghost predicate Closed(a: Arena, lo: nat, hi: nat) {
    hi <= |a| && forall i, j :: lo <= i < hi && 0 <= j < |a[i].kids| ==> a[i].kids[j] < hi
  }

  /** A document that lies in one interval depends on nothing outside it. */
  lemma {:induction false} TreeAtFrame(a: Arena, b: Arena, i: nat, hi: nat)
    requires Wf(a) && Wf(b) && i < hi <= |b| && Closed(a, i, hi)
    requires forall j :: i <= j < hi ==> a[j] == b[j]
    ensures TreeAt(a, i) == TreeAt(b, i)
    decreases hi - i
  {
    var ks := a[i].kids;
    forall j | 0 <= j < |ks|
      ensures TreeAt(a, ks[j]) == TreeAt(b, ks[j])
    {
      assert KidWf(a, i, ks[j]);
      TreeAtFrame(a, b, ks[j], hi);
    }
  }

  /** Appends a new cell `c` as the last child of `p`. */
  function Link(a: Arena, p: nat, c: Cell): (r: Arena)
    requires p < |a|
    ensures |r| == |a| + 1
  {
    a[p := a[p].(kids := a[p].kids + [|a|])] + [c.(parent := p, kids := [])]
  }

  lemma LinkWf(a: Arena, p: nat, c: Cell)
    requires Wf(a) && p < |a|
    ensures Wf(Link(a, p, c))
  {
    var r := Link(a, p, c);
    forall i, j | 0 <= i < |r| && 0 <= j < |r[i].kids|
      ensures KidWf(r, i, r[i].kids[j])
    {
      if i < |a| && j < |a[i].kids| {
        assert KidWf(a, i, a[i].kids[j]);
      }
    }
  }

  /** A change inside a cell that keeps its links. */
  lemma SameLinks(a: Arena, i: nat, c: Cell)
    requires i < |a| && c.kids == a[i].kids && c.parent == a[i].parent
    ensures Wf(a) ==> Wf(a[i := c])
  {
    if Wf(a) {
      var b := a[i := c];
      forall h, j | 0 <= h < |b| && 0 <= j < |b[h].kids|
        ensures KidWf(b, h, b[h].kids[j])
      {
        assert KidWf(a, h, a[h].kids[j]);
      }
    }
  }
}
