/** Making a table: an empty one, or the one whose image is given. */
module TlvParse {
  import opened Bytes
  import opened Crc32
  import opened TlvFormat
  import opened TlvTable

  /** No length that the walk over the entries comes to is so large that the 32-bit size wraps. */
  predicate SaneLengths(b: seq<byte>)
    decreases |b|
  {
    |b| < 8 ||
    var len := FromBe32(b[4..8]);
    len <= 0xFFFF_FFF0 && (8 + Align(len) > |b| || SaneLengths(b[8 + Align(len)..]))
  }

  /** The bytes that the size field of an image speaks of, or those of them that are there. */
  function BodyOf(img: seq<byte>): (b: seq<byte>)
    requires |img| >= HEADER
  {
    var n := HEADER + FromBe32(img[12..16]);
    if n <= |img| then img[HEADER..n] else img[HEADER..]
  }

  /** The size of an image as the code computes it, in 32 bits. */
  function HdrSize(img: seq<byte>): (n: nat)
    requires |img| >= HEADER
  {
    (HEADER + FromBe32(img[12..16])) % U32
  }

  /** The header is accepted, so that as many bytes are read as its size field says. */
  predicate HeaderPasses(img: seq<byte>, magic: seq<byte>, limit: nat)
    requires |img| >= HEADER
  {
    && HdrSize(img) <= limit && img[..8] == magic && HdrSize(img) <= |img|
    && FromBe32(img[12..16]) % ALIGNMENT == 0
  }

  /** Nothing is read behind the image, and the lengths in it are not so large that a size wraps. */
  predicate Sane(img: seq<byte>, magic: seq<byte>, limit: nat) {
    |img| >= HEADER && HeaderPasses(img, magic, limit) ==>
      && HEADER + FromBe32(img[12..16]) < U32
      && (FromBe32(img[8..12]) == Checksum(HeaderCopy(img) + BodyOf(img)) ==> SaneLengths(BodyOf(img)))
  }

  /** The first walk comes to no entry that takes up no bytes. */
  predicate WalkEnds(b: seq<byte>)
    decreases |b|
  {
    |b| < 8 ||
    var n := Size32(FromBe32(b[4..8]));
    n > |b| || (n > 0 && WalkEnds(b[n..]))
  }

  /** What the first walk finds, with the sizes that the code computes. */
  function Walk(b: seq<byte>): (c: Code)
    requires WalkEnds(b)
    decreases |b|
  {
    if b == [] then Done
    else if |b| < 8 then Ebadmsg
    else
      var n := Size32(FromBe32(b[4..8]));
      if n > |b| then E2big else Walk(b[n..])
  }

  /** What it would find with the real sizes. */
  function Tiling(b: seq<byte>): (c: Code)
    decreases |b|
  {
    if b == [] then Done
    else if |b| < 8 then Ebadmsg
    else
      var n := 8 + Align(FromBe32(b[4..8]));
      if n > |b| then E2big else Tiling(b[n..])
  }

  predicate GoodLimit(limit: nat) {
    HEADER <= limit < U32 && limit % ALIGNMENT == 0
  }

  function HeaderCopy(img: seq<byte>): (h: seq<byte>)
    requires |img| >= HEADER
  {
    img[..8] + Zeros(4) + img[12..16]
  }

  /** The answer to an image when memory does not run out. */
  function Verdict(img: seq<byte>, magic: seq<byte>, limit: nat): (c: Code) {
    if |img| < HEADER then Eilseq
    else
      if HdrSize(img) > limit then Emsgsize
      else if img[..8] != magic || HdrSize(img) > |img| || FromBe32(img[12..16]) % ALIGNMENT != 0 then Eilseq
      else if FromBe32(img[8..12]) != Checksum(HeaderCopy(img) + BodyOf(img)) then Eilseq
      else
        match Entries(BodyOf(img))
        case None => Tiling(BodyOf(img))
        case Some(es) => if !Distinct(es) then Eexist else if GoodLimit(limit) then Done else Einval
  }

  lemma {:induction false} TilingFindsEntries(b: seq<byte>)
    ensures Tiling(b) == Done <==> Entries(b).Some?
    decreases |b|
  {
    if |b| < 8 {
    } else {
      var n := 8 + Align(FromBe32(b[4..8]));
      if n <= |b| {
        TilingFindsEntries(b[n..]);
      }
    }
  }

  /** As long as no size wraps, the walk ends and finds what is there. */
  lemma {:induction false} WalkIsTiling(b: seq<byte>)
    requires SaneLengths(b)
    ensures WalkEnds(b) && Walk(b) == Tiling(b)
    decreases |b|
  {
    hide FromBe32, Size32, Align;
    if |b| < 8 {
    } else {
      var len := FromBe32(b[4..8]);
      Size32IsExact(len);
      if 8 + Align(len) <= |b| {
        WalkIsTiling(b[8 + Align(len)..]);
      }
    }
  }

  /** A walk that succeeds has seen entries that are there if and only if no size has wrapped. */
  lemma {:induction false} WalkFindsEntries(b: seq<byte>)
    requires |b| < 0xFFFF_FFF0 && WalkEnds(b) && Walk(b) == Done
    ensures Entries(b).Some? <==> SaneLengths(b)
    decreases |b|
  {
    hide FromBe32, Size32, Align;
    if b == [] {
    } else {
      var len := FromBe32(b[4..8]);
      Size32IsExact(len);
      if len <= 0xFFFF_FFF0 {
        WalkFindsEntries(b[8 + Align(len)..]);
      }
    }
  }

  /** It succeeds on an entry of 8 bytes whose value would be of 4294967295. */
  lemma FalseEntry()
    ensures var b: seq<byte> := [0, 0, 0, 1, 0xFF, 0xFF, 0xFF, 0xFF];
            WalkEnds(b) && Walk(b) == Done && Entries(b) == None
  {
    var b: seq<byte> := [0, 0, 0, 1, 0xFF, 0xFF, 0xFF, 0xFF];
    assert b[4..8] == [0xFF, 0xFF, 0xFF, 0xFF] && b[8..] == [];
  }

  lemma RestIsAligned(m: nat, n: nat)
    requires n <= m && m % ALIGNMENT == 0 && n % ALIGNMENT == 0
    ensures (m - n) % ALIGNMENT == 0
  {
  }

  /** As the size is a multiple of the alignment, no rest is too short for an entry. */
  lemma {:induction false} NeverTooShort(b: seq<byte>)
    requires |b| % ALIGNMENT == 0
    ensures Tiling(b) == Done || Tiling(b) == E2big
    decreases |b|
  {
    hide FromBe32, Align;
    if |b| < 8 {
    } else {
      var n := 8 + Align(FromBe32(b[4..8]));
      if n <= |b| {
        RestIsAligned(|b|, n);
        NeverTooShort(b[n..]);
      }
    }
  }

  lemma {:induction false} SaneEntries(es: seq<Entry>)
    requires AllWf(es) && |Body(es)| < 0xFFFF_FFF0
    ensures SaneLengths(Body(es))
    decreases |es|
  {
    hide EntryBytes, FromBe32;
    if es == [] {
    } else {
      var e, more := es[0], Body(es[1..]);
      assert EntryWf(e);
      FirstEntry(e, more);
      SaneEntries(es[1..]);
    }
  }

  /** `img` begins with the image of `es`, which keeps to the rules and fits. */
  ghost predicate Holds(img: seq<byte>, magic: seq<byte>, limit: nat, es: seq<Entry>) {
    && |magic| == 8 && AllWf(es) && Distinct(es) && GoodLimit(limit)
    && HEADER + |Body(es)| <= limit
    && Image(magic, Body(es)) <= img
  }

  /** Every image of a table is accepted, whatever follows it, and gives back the same entries. */
  lemma ImageIsAccepted(img: seq<byte>, magic: seq<byte>, limit: nat, es: seq<Entry>)
    requires Holds(img, magic, limit, es)
    ensures Sane(img, magic, limit) && Verdict(img, magic, limit) == Done && Entries(BodyOf(img)) == Some(es)
  {
    hide Image, Body, EntryBytes, FromBe32, Be32, Checksum, Entries, Tiling;
    var body := Body(es);
    var image := Image(magic, body);
    ImageParts(magic, body);
    BodyIsAligned(es);
    EntriesOfBody(es);
    SaneEntries(es);
    PrefixParts(image, img);
    Be32OfFromBe32(img[12..16]);
    assert BodyOf(img) == body;
  }

  /** So the image of a table, in whatever state, gives back the table. */
  lemma TableIsAccepted(table: Table)
    requires table.Valid()
    ensures var img := table.hdr[..];
            && Sane(img, table.magic, table.limit) && Verdict(img, table.magic, table.limit) == Done
            && Entries(BodyOf(img)) == Some(table.entries)
  {
    hide Image, Verdict, Sane, Entries, BodyOf;
    assert Holds(table.hdr[..], table.magic, table.limit, table.entries);
    ImageIsAccepted(table.hdr[..], table.magic, table.limit, table.entries);
  }

  lemma PrefixParts(p: seq<byte>, s: seq<byte>)
    requires |p| >= HEADER && p <= s
    ensures s[..8] == p[..8] && s[8..12] == p[8..12] && s[12..16] == p[12..16] && s[HEADER..|p|] == p[HEADER..]
  {
  }

  /** Only an image of a table is accepted. */
  lemma AcceptedIsImage(img: seq<byte>, magic: seq<byte>, limit: nat)
    requires Sane(img, magic, limit) && Verdict(img, magic, limit) == Done
    ensures Entries(BodyOf(img)).Some? && Holds(img, magic, limit, Entries(BodyOf(img)).v)
    ensures img[..HEADER + |BodyOf(img)|] == Image(magic, BodyOf(img))
  {
    hide Body, EntryBytes, FromBe32, Be32, Checksum, Entries, Tiling;
    var body := BodyOf(img);
    TilingFindsEntries(body);
    BodyOfEntries(body);
    Be32OfFromBe32(img[12..16]);
    Be32OfFromBe32(img[8..12]);
    FourParts(img, HEADER + |body|);
    ConcatAssoc(HeaderCopy(img), body, []);
  }

  lemma FourParts(s: seq<byte>, n: nat)
    requires HEADER <= n <= |s|
    ensures s[..n] == s[..8] + s[8..12] + s[12..16] + s[HEADER..n]
  {
  }

  // ---- the code

  /** The first walk: every entry must end within the image. */
  method CheckTiling(b: seq<byte>) returns (code: Code)
    requires WalkEnds(b)
    ensures code == Walk(b)
  {
    hide FromBe32, Size32;
    var i := 0;
    while i != |b|
      invariant i <= |b| && WalkEnds(b[i..]) && Walk(b[i..]) == Walk(b)
      decreases |b| - i
    {
      if |b| - i < 8 {
        return Ebadmsg;
      }
      assert b[i..][4..8] == b[i + 4..i + 8];
      var next := NextAt(b, i);
      if next > |b| {
        return E2big;
      }
      assert b[i..][next - i..] == b[next..];
      i := next;
    }
    return Done;
  }

  /** The second walk compares each tag with those after it. */
  method HasDuplicate(b: seq<byte>, ghost es: seq<Entry>) returns (found: bool)
    requires AllWf(es) && b == Body(es) && |b| < 0xFFFF_FFF0
    ensures found <==> !Distinct(es)
  {
    hide Body, EntryBytes, FromBe32, Align, Size32;
    NoBody(es);
    var i, end := 0, |b|;
    ghost var k := 0;
    while i != end
      invariant k <= |es| && i == |Body(es[..k])| <= end
      invariant forall x, y :: 0 <= x < k && x < y < |es| ==> es[x].tag != es[y].tag
      decreases |es| - k
    {
      StepIn(b, es, k);
      var next := NextAt(b, i);
      ghost var j := k + 1;
      while next != end
        invariant k < j <= |es| && next == |Body(es[..j])| <= end
        invariant forall y :: k < y < j ==> es[k].tag != es[y].tag
        decreases |es| - j
      {
        StepIn(b, es, j);
        if FromBe32(b[i..i + 4]) == FromBe32(b[next..next + 4]) {
          return true;
        }
        next := NextAt(b, next);
        j := j + 1;
      }
      AtTheEnd(es, j);
      i := NextAt(b, i);
      k := k + 1;
    }
    AtTheEnd(es, k);
    return false;
  }

  lemma StepIn(b: seq<byte>, es: seq<Entry>, k: nat)
    requires AllWf(es) && b == Body(es) && |b| < 0xFFFF_FFF0 && k <= |es| && |Body(es[..k])| != |b|
    ensures k < |es|
    ensures var i := |Body(es[..k])|;
            && i + 8 <= |b| && FromBe32(b[i..i + 4]) == es[k].tag
            && i + Size32(FromBe32(b[i + 4..i + 8])) == |Body(es[..k + 1])| <= |b|
  {
    hide Body, EntryBytes, FromBe32, Size32;
    if k == |es| {
      NoBody(es);
      assert false;
    }
    EntryAt(b, es, k);
    Size32IsExact(|es[k].val|);
  }

  /** The checksum in two pieces: a copy of the header with a cleared field, and the entries. */
  method ChecksumOf(img: seq<byte>, body: seq<byte>) returns (n: nat)
    requires |img| >= HEADER
    ensures n == Checksum(HeaderCopy(img) + body)
  {
    hide Divide, DigestOf, HeaderCopy;
    var crc := new Crc32State();
    crc.Update(HeaderCopy(img));
    crc.Update(body);
    DivideConcat(ALL_ONES, HeaderCopy(img), body);
    n := DigestOf(crc.digest);
  }

  predicate BothGranted(grants: seq<bool>) {
    |grants| >= 2 && grants[0] && grants[1]
  }

  /** A table with a copy of the image, if both allocations succeed. */
  method Create(limit: nat, image: seq<byte>, grants: seq<bool>, ghost es: seq<Entry>)
    returns (code: Code, table: Table?)
    requires AllWf(es) && Distinct(es) && |image| <= limit
    requires |image| >= HEADER && FromBe32(image[12..16]) == |Body(es)| && image[HEADER..] == Body(es)
    ensures code == if !GoodLimit(limit) then Einval else if !BothGranted(grants) then Enomem else Done
    ensures code == Done <==> table != null
    ensures code == Done ==>
      fresh(table) && fresh(table.hdr) && table.Valid() && table.limit == limit && table.entries == es
        && table.magic == image[..8]
  {
    hide Image, Body, FromBe32;
    table := null;
    BodyIsAligned(es);
    if |image| < HEADER || |image| >= U32 || |image| % ALIGNMENT != 0 || limit < HEADER || limit >= U32
      || limit % ALIGNMENT != 0 {
      return Einval, null;
    }
    if |grants| < 2 || !grants[0] || !grants[1] {
      return Enomem, null;
    }
    var hdr := new byte[|image|](i requires 0 <= i < |image| => image[i]);
    assert hdr[..] == image;
    assert hdr[12..16] == image[12..16] && hdr[HEADER..] == image[HEADER..] && hdr[..8] == image[..8];
    table := new Table(limit, grants[2..], hdr, es);
    code := Done;
  }

  /** An empty table. */
  method New(magic: seq<byte>, limit: nat, grants: seq<bool>) returns (code: Code, table: Table?)
    requires |magic| == 8
    ensures code == if !GoodLimit(limit) then Einval else if !BothGranted(grants) then Enomem else Done
    ensures code == Done <==> table != null
    ensures code == Done ==>
      fresh(table) && fresh(table.hdr) && table.Valid() && table.limit == limit && table.entries == []
        && table.magic == magic
  {
    hide FromBe32, Be32;
    if limit < HEADER {
      return Einval, null;
    }
    var image := magic + Be32(0) + Be32(0);
    FromBe32OfBe32(0);
    HeaderParts(magic, Be32(0), Be32(0), []);
    ConcatEmpty(image);
    code, table := Create(limit, image, grants, []);
  }

  /** A table from an image, which may be followed by other bytes. */
  method ParseImage(img: seq<byte>, magic: seq<byte>, limit: nat, grants: seq<bool>) returns (code: Code, table: Table?)
    requires |magic| == 8 && Sane(img, magic, limit)
    ensures code == if Verdict(img, magic, limit) == Done && !BothGranted(grants) then Enomem
            else Verdict(img, magic, limit)
    ensures code == Done <==> table != null
    ensures code == Done ==>
      && fresh(table) && fresh(table.hdr) && table.Valid() && table.limit == limit && table.magic == magic
      && Entries(BodyOf(img)) == Some(table.entries) && table.hdr[..] <= img
  {
    hide Image, Body, FromBe32, Checksum, Entries, Tiling, HeaderCopy, Distinct, AllWf, SaneLengths;
    if |img| < HEADER {
      return Eilseq, null;
    }
    var size := FromBe32(img[12..16]);
    if HdrSize(img) > limit {
      return Emsgsize, null;
    }
    if img[..8] != magic || HdrSize(img) > |img| || size % ALIGNMENT != 0 {
      return Eilseq, null;
    }
    var body := img[HEADER..HEADER + size];
    var crc := ChecksumOf(img, body);
    if FromBe32(img[8..12]) != crc {
      return Eilseq, null;
    }
    WalkIsTiling(body);
    TilingFindsEntries(body);
    code := CheckTiling(body);
    if code != Done {
      return code, null;
    }
    BodyOfEntries(body);
    ghost var es := Entries(body).v;
    var dup := HasDuplicate(body, es);
    if dup {
      return Eexist, null;
    }
    PrefixParts(img[..HEADER + size], img);
    code, table := Create(limit, img[..HEADER + size], grants, es);
    if code == Done {
      AcceptedIsImage(img, magic, limit);
    }
  }
}
