/**
 The image of a TLV table: a header of 16 bytes and the entries, each aligned to 8 bytes.
 A table is a sequence of entries with distinct tags and acts as a finite map.
 */
module TlvFormat {
  import opened Bytes
  import opened Crc32

  const HEADER: nat := 16
  const ALIGNMENT: nat := 8

  /** `pad` fills the value up to the alignment; what it holds means nothing. */
  datatype Entry = Entry(tag: nat, val: seq<byte>, pad: seq<byte>)

  function Align(n: nat): (r: nat)
    ensures r % ALIGNMENT == 0 && n <= r < n + ALIGNMENT
  {
    (n + ALIGNMENT - 1) / ALIGNMENT * ALIGNMENT
  }

  predicate EntryWf(e: Entry) {
    e.tag < U32 && |e.val| < U32 && |e.val| + |e.pad| == Align(|e.val|)
  }

  function EntrySize(e: Entry): nat
    requires EntryWf(e)
  {
    8 + Align(|e.val|)
  }

  function EntryBytes(e: Entry): (b: seq<byte>)
    ensures EntryWf(e) ==> |b| == EntrySize(e)
  {
    Be32(e.tag) + Be32(|e.val|) + e.val + e.pad
  }

  predicate AllWf(es: seq<Entry>) {
    forall i :: 0 <= i < |es| ==> EntryWf(es[i])
  }

  predicate Distinct(es: seq<Entry>) {
    forall i, j :: 0 <= i < j < |es| ==> es[i].tag != es[j].tag
  }

  function Body(es: seq<Entry>): (b: seq<byte>) {
    if es == [] then [] else EntryBytes(es[0]) + Body(es[1..])
  }

  /** The checksum is taken over the image with its own field cleared. */
  function Image(magic: seq<byte>, body: seq<byte>): (b: seq<byte>)
    requires |magic| == 8
    ensures |b| == HEADER + |body|
  {
    magic + Be32(Checksum(magic + Zeros(4) + Be32(|body|) + body)) + Be32(|body|) + body
  }

  // ---- the finite map

  /** The position of a tag, or the number of entries. */
  function IndexOf(es: seq<Entry>, tag: nat): (k: nat)
    ensures k <= |es| && (forall i :: 0 <= i < k ==> es[i].tag != tag) && (k < |es| ==> es[k].tag == tag)
  {
    if es == [] || es[0].tag == tag then 0 else 1 + IndexOf(es[1..], tag)
  }

  function NewEntry(tag: nat, val: seq<byte>): (e: Entry)
    ensures tag < U32 && |val| < U32 ==> EntryWf(e)
  {
    Entry(tag, val, Zeros(Align(|val|) - |val|))
  }

  function Updated(es: seq<Entry>, tag: nat, val: seq<byte>): (r: seq<Entry>) {
    var k := IndexOf(es, tag);
    if k < |es| then es[k := NewEntry(tag, val)] else es + [NewEntry(tag, val)]
  }

  function Deleted(es: seq<Entry>, tag: nat): (r: seq<Entry>) {
    var k := IndexOf(es, tag);
    if k < |es| then es[..k] + es[k + 1..] else es
  }

  /** The table as a finite map. */
  function Lookup(es: seq<Entry>, tag: nat): (r: Option<seq<byte>>) {
    var k := IndexOf(es, tag);
    if k < |es| then Some(es[k].val) else None
  }

  lemma IndexIsUnique(es: seq<Entry>, k: nat, tag: nat)
    requires Distinct(es) && k < |es| && es[k].tag == tag
    ensures IndexOf(es, tag) == k
  {
    var i := IndexOf(es, tag);
    assert i < |es| ==> es[i].tag == tag;
  }

  lemma NoIndex(es: seq<Entry>, tag: nat)
    requires forall i :: 0 <= i < |es| ==> es[i].tag != tag
    ensures IndexOf(es, tag) == |es|
  {
    if IndexOf(es, tag) < |es| {
      assert false;
    }
  }

  /** Setting a tag changes the value of that tag alone, and keeps tags distinct. */
  lemma UpdatedActsAsMap(es: seq<Entry>, tag: nat, val: seq<byte>, t: nat)
    requires Distinct(es)
    ensures Distinct(Updated(es, tag, val))
    ensures Lookup(Updated(es, tag, val), t) == if t == tag then Some(val) else Lookup(es, t)
  {
    hide IndexOf;
    var r, k, i := Updated(es, tag, val), IndexOf(es, tag), IndexOf(es, t);
    assert r[k].tag == tag;
    if t == tag {
      IndexIsUnique(r, k, tag);
    } else if i < |es| {
      assert r[i] == es[i];
      IndexIsUnique(r, i, t);
    } else {
      assert forall j :: 0 <= j < |r| ==> r[j].tag != t;
      NoIndex(r, t);
    }
  }

  /** Deleting a tag takes away that tag alone, and keeps tags distinct. */
  lemma DeletedActsAsMap(es: seq<Entry>, tag: nat, t: nat)
    requires Distinct(es)
    ensures Distinct(Deleted(es, tag))
    ensures Lookup(Deleted(es, tag), t) == if t == tag then None else Lookup(es, t)
  {
    hide IndexOf;
    var r, k, i := Deleted(es, tag), IndexOf(es, tag), IndexOf(es, t);
    assert forall j :: 0 <= j < |r| ==> r[j] == if j < k then es[j] else es[j + 1];
    if i < |es| && t != tag {
      var j := if i < k then i else i - 1;
      assert r[j] == es[i];
      IndexIsUnique(r, j, t);
    } else {
      assert forall j :: 0 <= j < |r| ==> r[j].tag != t;
      NoIndex(r, t);
    }
  }

  /** All entries but the one that is set or deleted keep their bytes and their order. */
  lemma OthersKeepTheirOrder(es: seq<Entry>, tag: nat, val: seq<byte>)
    requires Distinct(es)
    ensures Others(Updated(es, tag, val), tag) == Others(es, tag) == Deleted(es, tag)
  {
    var k := IndexOf(es, tag);
    OthersAt(es, tag);
    if k < |es| {
      var r := es[k := NewEntry(tag, val)];
      assert Distinct(r);
      IndexIsUnique(r, k, tag);
      OthersAt(r, tag);
      assert r[..k] == es[..k] && r[k + 1..] == es[k + 1..];
    } else {
      var r := es + [NewEntry(tag, val)];
      assert Distinct(r);
      IndexIsUnique(r, k, tag);
      OthersAt(r, tag);
      assert r[..k] == es && r[k + 1..] == [];
    }
  }

  function Others(es: seq<Entry>, tag: nat): (r: seq<Entry>) {
    if es == [] then []
    else (if es[0].tag == tag then [] else [es[0]]) + Others(es[1..], tag)
  }

  lemma {:induction false} OthersAt(es: seq<Entry>, tag: nat)
    requires Distinct(es)
    ensures Others(es, tag) == Deleted(es, tag)
    decreases |es|
  {
    if es == [] {
    } else {
      assert Distinct(es[1..]);
      OthersAt(es[1..], tag);
      DeletedStep(es, tag);
    }
  }

  lemma DeletedStep(es: seq<Entry>, tag: nat)
    requires Distinct(es) && es != []
    ensures Deleted(es, tag) == (if es[0].tag == tag then [] else [es[0]]) + Deleted(es[1..], tag)
  {
    hide Distinct;
    var more := es[1..];
    if es[0].tag == tag {
      OnlyOnce(es);
      NoIndex(more, tag);
    } else if IndexOf(more, tag) < |more| {
      DropAt(es, IndexOf(more, tag) + 1);
    } else {
      assert es == [es[0]] + more;
    }
  }

  lemma OnlyOnce(es: seq<Entry>)
    requires Distinct(es) && es != []
    ensures forall j :: 0 <= j < |es[1..]| ==> es[1..][j].tag != es[0].tag
  {
  }

  lemma DropAt(es: seq<Entry>, k: nat)
    requires 0 < k < |es|
    ensures es[..k] + es[k + 1..] == [es[0]] + (es[1..][..k - 1] + es[1..][k..])
  {
  }

  // ---- layout

  lemma {:induction false} BodySplit(es: seq<Entry>, k: nat)
    requires k <= |es|
    ensures Body(es) == Body(es[..k]) + Body(es[k..])
    ensures k < |es| ==> Body(es[k..]) == EntryBytes(es[k]) + Body(es[k + 1..])
    decreases k
  {
    hide EntryBytes;
    if k == 0 {
      assert es[..0] == [] && es[0..] == es;
      ConcatEmpty(Body(es));
    } else {
      BodySplit(es[1..], k - 1);
      assert es[..k][0] == es[0] && es[..k][1..] == es[1..][..k - 1] && es[k..] == es[1..][k - 1..];
      ConcatAssoc(EntryBytes(es[0]), Body(es[1..][..k - 1]), Body(es[k..]));
    }
    if k < |es| {
      assert es[k..][0] == es[k] && es[k..][1..] == es[k + 1..];
    }
  }

  lemma EntryIsAligned(e: Entry)
    requires EntryWf(e)
    ensures |EntryBytes(e)| % ALIGNMENT == 0
  {
    hide Align, Be32;
    assert |EntryBytes(e)| == 8 + Align(|e.val|);
  }

  /** Images are multiples of the alignment. */
  lemma {:induction false} BodyIsAligned(es: seq<Entry>)
    requires AllWf(es)
    ensures |Body(es)| % ALIGNMENT == 0
    decreases |es|
  {
    hide EntryBytes, Align, EntryWf;
    if es == [] {
    } else {
      BodyIsAligned(es[1..]);
      assert |Body(es)| == |EntryBytes(es[0])| + |Body(es[1..])|;
      EntryIsAligned(es[0]);
    }
  }

  // ---- reading entries back

  /** The entries that tile `b` exactly, if there are any. */
  function Entries(b: seq<byte>): (r: Option<seq<Entry>>)
    decreases |b|
  {
    if b == [] then Some([])
    else if |b| < 8 then None
    else
      var len := FromBe32(b[4..8]);
      var n := 8 + Align(len);
      if n > |b| then None
      else
        match Entries(b[n..])
        case None => None
        case Some(es) => Some([Entry(FromBe32(b[..4]), b[8..8 + len], b[8 + len..n])] + es)
  }

  /** Reading back what was laid out. */
  lemma {:induction false} EntriesOfBody(es: seq<Entry>)
    requires AllWf(es)
    ensures Entries(Body(es)) == Some(es)
    decreases |es|
  {
    hide EntryBytes, Entries, EntryWf;
    if es == [] {
      NoEntries();
    } else {
      EntriesOfBody(es[1..]);
      EntriesStep(es[0], Body(es[1..]), es[1..]);
      assert [es[0]] + es[1..] == es;
    }
  }

  lemma NoEntries()
    ensures Entries([]) == Some([])
  {
  }

  lemma EntriesStep(e: Entry, more: seq<byte>, rest: seq<Entry>)
    requires EntryWf(e) && Entries(more) == Some(rest)
    ensures Entries(EntryBytes(e) + more) == Some([e] + rest)
  {
    hide EntryBytes, Align, FromBe32;
    FirstEntry(e, more);
  }

  lemma FirstEntry(e: Entry, more: seq<byte>)
    requires EntryWf(e)
    ensures var b := EntryBytes(e) + more;
            var n := 8 + Align(|e.val|);
            && |b| >= n && b[n..] == more && FromBe32(b[..4]) == e.tag && FromBe32(b[4..8]) == |e.val|
            && b[8..8 + |e.val|] == e.val && b[8 + |e.val|..n] == e.pad
  {
    hide Align, FromBe32, Be32;
    FromBe32OfBe32(e.tag);
    FromBe32OfBe32(|e.val|);
    Fields(Be32(e.tag), Be32(|e.val|), e.val, e.pad, more);
  }

  lemma Fields(x: seq<byte>, y: seq<byte>, v: seq<byte>, p: seq<byte>, more: seq<byte>)
    requires |x| == 4 && |y| == 4
    ensures var b := x + y + v + p + more;
            && b[..4] == x && b[4..8] == y && b[8..8 + |v|] == v
            && b[8 + |v|..8 + |v| + |p|] == p && b[8 + |v| + |p|..] == more
  {
  }

  /** Laying out what was read. */
  lemma {:induction false} BodyOfEntries(b: seq<byte>)
    requires Entries(b).Some?
    ensures AllWf(Entries(b).v) && Body(Entries(b).v) == b
    decreases |b|
  {
    hide EntryBytes, Align, FromBe32, EntryWf;
    if b == [] {
    } else {
      var n := 8 + Align(FromBe32(b[4..8]));
      BodyOfEntries(b[n..]);
      EntryOfBytes(b);
      assert Entries(b).v[1..] == Entries(b[n..]).v;
    }
  }

  lemma EntryOfBytes(b: seq<byte>)
    requires |b| >= 8 && |b| >= 8 + Align(FromBe32(b[4..8]))
    ensures var len := FromBe32(b[4..8]);
            var n := 8 + Align(len);
            var e := Entry(FromBe32(b[..4]), b[8..8 + len], b[8 + len..n]);
            EntryWf(e) && EntryBytes(e) + b[n..] == b
  {
    hide Align, FromBe32, Be32;
    var len := FromBe32(b[4..8]);
    Be32OfFromBe32(b[..4]);
    Be32OfFromBe32(b[4..8]);
    FiveParts(b, 8 + len, 8 + Align(len));
  }

  lemma FiveParts(b: seq<byte>, i: nat, j: nat)
    requires 8 <= i <= j <= |b|
    ensures b[..4] + b[4..8] + b[8..i] + b[i..j] + b[j..] == b
  {
  }
}
