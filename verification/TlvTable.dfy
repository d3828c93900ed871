/**
 The TLV table: one image in memory, edited in place by moving bytes and by reallocation,
 either of which may have to be taken back.
 */
module TlvTable {
  import opened Bytes
  import opened Crc32
  import opened TlvFormat

  const INT32_MAX: nat := 0x7FFF_FFFF

  /** The largest image for which the arithmetic of `ndm_tlv_table_set` cannot go wrong. */
  const MAX_LIMIT: nat := 0x7FFF_FFF0

  /** The return values, named after the error codes. */
  datatype Code = Done | Einval | Emsgsize | Enomem | Enoent | Eilseq | Ebadmsg | E2big | Eexist

  // ---- 32-bit sizes

  /** The size of an entry as the code computes it, in 32 bits. */
  function Size32(len: nat): (n: nat) {
    (8 + (len + 7) % U32 / 8 * 8) % U32
  }

  function Int32(n: int): (r: int) {
    (n + 0x8000_0000) % U32 - 0x8000_0000
  }

  function SizeT(n: int): (r: nat) {
    n % 0x1_0000_0000_0000_0000
  }

  /** The 32-bit size is the real one exactly up to 0xFFFFFFF0; above, an entry takes no bytes, or 8. */
  lemma Size32IsExact(len: nat)
    requires len < U32
    ensures Size32(len) == 8 + Align(len) <==> len <= 0xFFFF_FFF0
    ensures Size32(len) == 0 <==> 0xFFFF_FFF1 <= len <= 0xFFFF_FFF8
    ensures Size32(len) == 8 <==> len == 0 || 0xFFFF_FFF9 <= len
  {
  }

  /** Where the walk goes from the entry at `i`: `ndm_tlv_next_`. */
  function NextAt(b: seq<byte>, i: nat): (next: nat)
    requires i + 8 <= |b|
  {
    i + Size32(FromBe32(b[i + 4..i + 8]))
  }

  /** The walk stands still at exactly the lengths whose size has wrapped to nothing. */
  lemma WalkStandsStill(b: seq<byte>, i: nat)
    requires i + 8 <= |b|
    ensures NextAt(b, i) == i <==> 0xFFFF_FFF1 <= FromBe32(b[i + 4..i + 8]) <= 0xFFFF_FFF8
  {
    hide FromBe32, Size32;
    Size32IsExact(FromBe32(b[i + 4..i + 8]));
  }

  /** A body of one entry from which the walk never gets on, neither too short nor too large. */
  lemma EndlessWalk()
    ensures var b: seq<byte> := [0, 0, 0, 1, 0xFF, 0xFF, 0xFF, 0xF1]; NextAt(b, 0) == 0 != |b|
  {
    var b: seq<byte> := [0, 0, 0, 1, 0xFF, 0xFF, 0xFF, 0xF1];
    assert b[4..8] == [0xFF, 0xFF, 0xFF, 0xF1];
  }

  /** What `ndm_tlv_table_set` adds to the size of an image, with an old entry of size `old` or 0. */
  function Growth(len: nat, size: nat): (d: int) {
    var d := Int32(Size32(len % U32));
    if size == 0 then d else Int32(d - Int32(size))
  }

  /** The wrapped arithmetic neither lets an image through that is too large, nor stops a smaller one. */
  predicate IsExact(img: nat, size: nat, len: nat, limit: nat) {
    var want := img - size + 8 + Align(len);
    var got := SizeT(img + SizeT(Growth(len, size)));
    (got > limit <==> want > limit) && (want <= limit ==> got == want && Growth(len, size) == 8 + Align(len) - size)
  }

  lemma GrowthIsExact(img: nat, size: nat, len: nat, limit: nat)
    requires HEADER + size <= img <= limit <= MAX_LIMIT && len <= INT32_MAX && size % 8 == 0
    ensures IsExact(img, size, len, limit)
  {
    var a := 8 + Align(len);
    SizeOfLength(len);
    hide Int32, SizeT, Size32, Align;
    Int32Wraps(a);
    Int32Wraps(size);
    Int32Wraps(Int32(a) - size);
    SizeTAdds(img, Growth(len, size));
  }

  /** An image of the limit or less, one of its entries or none, and a value that may be set. */
  predicate MayBeSet(img: nat, size: nat, len: nat, limit: nat) {
    HEADER + size <= img <= limit && img % ALIGNMENT == 0 && size % ALIGNMENT == 0 && len <= INT32_MAX
  }

  /** The arithmetic is exact on all that a limit allows if and only if the limit is at most `MAX_LIMIT`. */
  lemma ExactUpToLimit(limit: nat)
    requires HEADER <= limit < U32 && limit % ALIGNMENT == 0
    ensures (forall img, size, len :: MayBeSet(img, size, len, limit) ==> IsExact(img, size, len, limit)) <==>
            limit <= MAX_LIMIT
  {
    hide IsExact;
    if limit <= MAX_LIMIT {
      forall img, size, len | MayBeSet(img, size, len, limit)
        ensures IsExact(img, size, len, limit)
      {
        GrowthIsExact(img, size, len, limit);
      }
    } else {
      GrowthFailsAboveLimit(limit);
      assert MayBeSet(MAX_LIMIT + 8, 0, INT32_MAX, limit);
    }
  }

  lemma SizeOfLength(len: nat)
    requires len <= INT32_MAX
    ensures Size32(len % U32) == 8 + Align(len) <= 0x8000_0008
  {
  }

  lemma Int32Wraps(n: int)
    requires -0x1_0000_0000 <= n < 0x1_0000_0000
    ensures Int32(n) == if n < -0x8000_0000 then n + U32 else if n < 0x8000_0000 then n else n - U32
  {
  }

  /** No signed 32-bit number of the call overflows. */
  predicate Fits32(img: nat, size: nat, len: nat, limit: nat) {
    len <= INT32_MAX ==>
      var want := img - size + 8 + Align(len);
      img <= INT32_MAX && IsExact(img, size, len, limit) && (want <= limit ==> want <= INT32_MAX)
  }

  /** Within the limit every call fits. */
  lemma FitsWithinLimit(img: nat, size: nat, len: nat, limit: nat)
    requires HEADER + size <= img <= limit <= MAX_LIMIT && size % ALIGNMENT == 0
    ensures Fits32(img, size, len, limit)
  {
    hide IsExact;
    if len <= INT32_MAX {
      GrowthIsExact(img, size, len, limit);
    }
  }

  /** At a higher limit, a new entry of the largest length seems to empty an image, and is let through. */
  lemma GrowthFailsAboveLimit(limit: nat)
    requires MAX_LIMIT + 8 <= limit < U32
    ensures !IsExact(MAX_LIMIT + 8, 0, INT32_MAX, limit)
    ensures SizeT(MAX_LIMIT + 8 + SizeT(Growth(INT32_MAX, 0))) == 0
  {
    assert Align(INT32_MAX) == 0x8000_0000;
    assert Growth(INT32_MAX, 0) == 0x8000_0008 - U32;
    SizeTAdds(MAX_LIMIT + 8, 0x8000_0008 - U32);
  }

  lemma SizeTAdds(img: nat, d: int)
    requires img <= INT32_MAX && -0x1_0000_0000 <= d <= 0x1_0000_0000
    ensures SizeT(img + SizeT(d)) == if img + d >= 0 then img + d else img + d + 0x1_0000_0000_0000_0000
  {
  }

  // ---- moving bytes

  method StoreBytes(a: array<byte>, i: nat, bytes: seq<byte>)
    requires i + |bytes| <= a.Length
    modifies a
    ensures a[..] == Overwrite(old(a[..]), i, bytes)
  {
    for j := 0 to |bytes|
      invariant forall k :: 0 <= k < j ==> a[i + k] == bytes[k]
      invariant forall k :: 0 <= k < i || i + j <= k < a.Length ==> a[k] == old(a[k])
    {
      a[i + j] := bytes[j];
    }
  }

  /** The `tail` bytes from `src` on stand at `dst` instead. */
  function Moved(b: seq<byte>, dst: nat, src: nat, tail: nat): (m: seq<byte>)
    requires dst + tail <= |b| && src + tail <= |b|
    ensures |m| == |b|
  {
    Overwrite(b, dst, b[src..src + tail])
  }

  lemma MovedDown(b: seq<byte>, dst: nat, src: nat, tail: nat)
    requires dst < src && src + tail == |b|
    ensures var m := Moved(b, dst, src, tail); m[..dst] == b[..dst] && m[dst..dst + tail] == b[src..]
  {
  }

  /** Moving the tail back and storing what it had covered restores every byte. */
  lemma MovedBack(b: seq<byte>, i: nat, dst: nat, src: nat, tail: nat)
    requires i <= dst < src && src + tail == |b|
    ensures var back := Moved(Moved(b, dst, src, tail), src, dst, tail);
            Overwrite(back, i, b[i..src]) == b
  {
    var m := Moved(b, dst, src, tail);
    var back := Moved(m, src, dst, tail);
    MovedDown(b, dst, src, tail);
    assert back[src..] == m[dst..dst + tail];
    assert back[..i] == b[..i];
  }

  /** Opening a gap before the tail keeps everything that was there. */
  lemma MovedUp(was: seq<byte>, b: seq<byte>, i: nat, dst: nat, src: nat)
    requires i + 4 <= src < dst && src <= |was| && |b| == |was| - src + dst && was <= b
    ensures var m := Moved(b, dst, src, |was| - src);
            m[..i] == was[..i] && m[dst..] == was[src..] && m[i..i + 4] == was[i..i + 4]
  {
    var m := Moved(b, dst, src, |was| - src);
    assert m[dst..] == b[src..|was|] == was[src..];
    assert m[..dst] == b[..dst];
    assert m[..i] == m[..dst][..i] && m[i..i + 4] == m[..dst][i..i + 4];
  }

  lemma StoredAtEnd(was: seq<byte>, b: seq<byte>, i: nat, x: seq<byte>)
    requires i <= |was| && was <= b && i + |x| <= |b|
    ensures var r := Overwrite(b, i, x); r[..i] == was[..i] && r[i..i + |x|] == x && r[|b|..] == []
  {
    assert b[..i] == was[..i];
  }

  method MemMove(a: array<byte>, dst: nat, src: nat, n: nat)
    requires dst + n <= a.Length && src + n <= a.Length
    modifies a
    ensures a[..] == Moved(old(a[..]), dst, src, n)
  {
    assert a[..][src..src + n] == a[src..src + n];
    StoreBytes(a, dst, a[src..src + n]);
  }

  // ---- what stands where in an image

  lemma ImageParts(magic: seq<byte>, body: seq<byte>)
    requires |magic| == 8 && |body| < U32
    ensures var b := Image(magic, body);
            && b[..8] == magic && b[HEADER..] == body && FromBe32(b[12..16]) == |body|
            && FromBe32(b[8..12]) == Checksum(magic + Zeros(4) + Be32(|body|) + body)
  {
    hide Checksum, Be32, FromBe32, Zeros;
    var crc := Checksum(magic + Zeros(4) + Be32(|body|) + body);
    FromBe32OfBe32(|body|);
    FromBe32OfBe32(crc);
    HeaderParts(magic, Be32(crc), Be32(|body|), body);
  }

  lemma HeaderParts(m: seq<byte>, c: seq<byte>, n: seq<byte>, body: seq<byte>)
    requires |m| == 8 && |c| == 4 && |n| == 4
    ensures var b := m + c + n + body;
            b[..8] == m && b[8..12] == c && b[12..16] == n && b[16..] == body
  {
  }

  /** Entry `k` and its fields. */
  lemma EntryAt(body: seq<byte>, es: seq<Entry>, k: nat)
    requires AllWf(es) && k < |es| && body == Body(es)
    ensures var i := |Body(es[..k])|;
            && i + EntrySize(es[k]) == |Body(es[..k + 1])| <= |body|
            && FromBe32(body[i..i + 4]) == es[k].tag && FromBe32(body[i + 4..i + 8]) == |es[k].val|
            && body[i..i + EntrySize(es[k])] == EntryBytes(es[k])
            && body[i + 8..i + 8 + |es[k].val|] == es[k].val
            && body[..i] == Body(es[..k]) && body[i + EntrySize(es[k])..] == Body(es[k + 1..])
  {
    var e, x, y := es[k], Body(es[..k]), Body(es[k + 1..]);
    hide Body, EntryBytes, Be32, FromBe32;
    BodySplit(es, k);
    BodySplit(es, k + 1);
    FirstEntry(e, y);
    SplitConcat(x, EntryBytes(e) + y);
    SplitConcat(EntryBytes(e), y);
    ThreeParts(body, x, EntryBytes(e), y);
  }

  lemma ThreeParts(b: seq<byte>, x: seq<byte>, y: seq<byte>, z: seq<byte>)
    requires b == x + (y + z)
    ensures b[..|x|] == x && b[|x|..|x| + |y|] == y && b[|x| + |y|..] == z
    ensures forall i, j :: 0 <= i <= j <= |y| ==> b[|x| + i..|x| + j] == (y + z)[i..j]
  {
    forall i, j | 0 <= i <= j <= |y|
      ensures b[|x| + i..|x| + j] == (y + z)[i..j]
    {
    }
  }

  // ---- the table

  /** `grants` says which of the allocations succeed; `used` counts those made so far. */
  class Table {
    const limit: nat
    const grants: seq<bool>
    var hdr: array<byte>
    var used: nat
    ghost var magic: seq<byte>
    ghost var entries: seq<Entry>

    /** The image is that of the entries, with distinct tags and a current checksum. */
    ghost predicate Valid()
      reads this, hdr
    {
      && |magic| == 8 && AllWf(entries) && Distinct(entries)
      && hdr[..] == Image(magic, Body(entries))
      && hdr.Length <= limit < U32 && limit % ALIGNMENT == 0
    }

    /** A table around an image, whose checksum is computed anew. */
    constructor (limit: nat, grants: seq<bool>, image: array<byte>, ghost entries: seq<Entry>)
      requires image.Length <= limit < U32 && limit % ALIGNMENT == 0 && AllWf(entries) && Distinct(entries)
      requires image.Length >= HEADER && FromBe32(image[12..16]) == |Body(entries)| && image[HEADER..] == Body(entries)
      modifies image
      ensures Valid() && this.limit == limit && this.entries == entries && magic == old(image[..8]) && hdr == image
    {
      this.limit, this.grants, hdr, used := limit, grants, image, 0;
      this.entries, magic := entries, image[..8];
      new;
      UpdateHeader(0);
    }

    method Alloc() returns (granted: bool)
      modifies this`used
      ensures used == old(used) + 1 && (granted <==> old(used) < |grants| && grants[old(used)])
    {
      granted := used < |grants| && grants[used];
      used := used + 1;
    }

    method BodySize() returns (n: nat)
      requires hdr.Length >= HEADER
      ensures n == FromBe32(hdr[12..16])
    {
      n := FromBe32(hdr[12..16]);
    }

    /** New size and new checksum, computed over the image with a cleared checksum field. */
    method UpdateHeader(diff: int)
      requires HEADER <= hdr.Length < U32 && FromBe32(hdr[12..16]) + diff == hdr.Length - HEADER
      modifies hdr
      ensures hdr[..] == Image(old(hdr[..8]), old(hdr[HEADER..]))
    {
      hide Be32, FromBe32, Divide, DigestOf, Zeros;
      ghost var m, c, n, body := hdr[..8], hdr[8..12], hdr[12..16], hdr[HEADER..];
      assert hdr[..] == m + c + n + body;
      var size := BodySize();
      size := size + diff;
      StoreBytes(hdr, 12, Be32(size));
      SizeEdit(m, c, n, body, Be32(size));
      StoreBytes(hdr, 8, Zeros(4));
      ChecksumEdit(m, c, Be32(size), body, Zeros(4));
      var crc := new Crc32State();
      crc.Update(hdr[..]);
      var digest := DigestOf(crc.digest);
      StoreBytes(hdr, 8, Be32(digest));
      ChecksumEdit(m, Zeros(4), Be32(size), body, Be32(digest));
    }

    predicate Granted(j: nat) {
      j < |grants| && grants[j]
    }

    /** The allocations made since `from` were all granted. */
    ghost predicate AllGranted(from: nat)
      reads this`used
    {
      forall j :: from <= j < used ==> Granted(j)
    }

    /** The walk from entry to entry; ends at the first entry with the tag, or at the end. */
    method Find(tag: nat) returns (i: nat)
      requires Valid()
      ensures i == HEADER + |Body(entries[..IndexOf(entries, tag)])|
    {
      hide Image, Body, EntryBytes, FromBe32, IndexOf, Align;
      ghost var body := Body(entries);
      ImageParts(magic, body);
      i := HEADER;
      var size := BodySize();
      var end := HEADER + size;
      ghost var k: nat := 0;
      NoBody(entries);
      while i != end
        invariant k <= |entries| && i == HEADER + |Body(entries[..k])| <= end
        invariant forall j :: 0 <= j < k ==> entries[j].tag != tag
        decreases |entries| - k
      {
        WalkOn(hdr[..], magic, entries, k);
        if FromBe32(hdr[i..i + 4]) == tag {
          IndexIsUnique(entries, k, tag);
          return;
        }
        i := i + Size32(FromBe32(hdr[i + 4..i + 8]));
        k := k + 1;
      }
      AtTheEnd(entries, k);
      NoIndex(entries, tag);
    }

    /** The value that goes with a tag. */
    method Get(tag: nat) returns (r: Option<seq<byte>>)
      requires Valid()
      ensures r == Lookup(entries, tag)
    {
      hide Image, Body, EntryBytes, FromBe32, IndexOf, Align;
      ghost var k := IndexOf(entries, tag);
      ImageParts(magic, Body(entries));
      var i := Find(tag);
      var size := BodySize();
      if i == HEADER + size {
        AtTheEnd(entries, k);
        return None;
      }
      WalkOn(hdr[..], magic, entries, k);
      var len := FromBe32(hdr[i + 4..i + 8]);
      return Some(hdr[i + 8..i + 8 + len]);
    }

    /** Cuts or extends the image; what is beyond the old bytes is arbitrary. */
    method Realloc(n: nat) returns (granted: bool)
      modifies this`hdr, this`used
      ensures used == old(used) + 1 && granted == Granted(old(used))
      ensures !granted ==> hdr == old(hdr)
      ensures granted ==> fresh(hdr) && hdr.Length == n
      ensures granted ==> forall j :: 0 <= j < n && j < old(hdr.Length) ==> hdr[j] == old(hdr[j])
    {
      granted := Alloc();
      if granted {
        var a := new byte[n];
        forall j | 0 <= j < n && j < hdr.Length {
          a[j] := hdr[j];
        }
        hdr := a;
      }
    }

    /** Gives the entry of `s` bytes at `i`, or the end of the image, a size of `n` bytes. */
    method Resize(i: nat, s: nat, n: nat, tag: nat) returns (granted: bool)
      requires i + s <= hdr.Length && n >= 8 && (s == 0 ==> i == hdr.Length)
      requires s > 0 ==> s >= 8 && hdr[i..i + 4] == Be32(tag)
      modifies this`hdr, this`used, hdr
      ensures used >= old(used) && (granted <==> AllGranted(old(used)))
      ensures !granted ==> hdr == old(hdr) && hdr[..] == old(hdr[..])
      ensures granted ==> hdr == old(hdr) || fresh(hdr)
      ensures granted ==> hdr.Length == old(hdr.Length) - s + n
      ensures granted ==> hdr[..i] == old(hdr[..i]) && hdr[i + n..] == old(hdr[i + s..]) && hdr[i..i + 4] == Be32(tag)
    {
      hide Be32;
      if n < s {
        granted := Shrink(i, s, n);
        if granted {
          assert hdr[i..i + 4] == hdr[..i + n][i..i + 4];
          assert hdr[..i] == hdr[..i + n][..i];
        }
      } else if n > s {
        granted := Grow(i, s, n, tag);
      } else {
        granted := true;
      }
    }

    /** Moves the tail down before the image is cut, and takes the move back if that fails. */
    method Shrink(i: nat, s: nat, n: nat) returns (granted: bool)
      requires i + s <= hdr.Length && n < s
      modifies this`hdr, this`used, hdr
      ensures used >= old(used) && (granted <==> AllGranted(old(used)))
      ensures !granted ==> hdr == old(hdr) && hdr[..] == old(hdr[..])
      ensures granted ==> fresh(hdr) && hdr.Length == old(hdr.Length) - s + n
      ensures granted ==> hdr[..i + n] == old(hdr[..i + n]) && hdr[i + n..] == old(hdr[i + s..])
    {
      hide Overwrite, Moved;
      granted := Alloc();
      if !granted {
        assert !Granted(old(used));
        return;
      }
      var dup := hdr[i..i + s];
      var tail := hdr.Length - (i + s);
      ghost var before := hdr[..];
      assert dup == before[i..i + s];
      MovedDown(before, i + n, i + s, tail);
      MovedBack(before, i, i + n, i + s, tail);
      MemMove(hdr, i + n, i + s, tail);
      ghost var moved := hdr[..];
      granted := Realloc(hdr.Length - s + n);
      if !granted {
        MemMove(hdr, i + s, i + n, tail);
        StoreBytes(hdr, i, dup);
        assert !Granted(old(used) + 1);
      } else {
        assert hdr[..] == moved[..hdr.Length];
        assert hdr[..i + n] == moved[..i + n] && hdr[i + n..] == moved[i + n..hdr.Length];
      }
    }

    /** Moves the tail up after the image is extended; without a tail the entry may be new. */
    method Grow(i: nat, s: nat, n: nat, tag: nat) returns (granted: bool)
      requires i + s <= hdr.Length && s < n && n >= 8 && (s == 0 ==> i == hdr.Length)
      requires s > 0 ==> s >= 8 && hdr[i..i + 4] == Be32(tag)
      modifies this`hdr, this`used, hdr
      ensures used >= old(used) && (granted <==> AllGranted(old(used)))
      ensures !granted ==> hdr == old(hdr) && hdr[..] == old(hdr[..])
      ensures granted ==> fresh(hdr) && hdr.Length == old(hdr.Length) - s + n
      ensures granted ==> hdr[..i] == old(hdr[..i]) && hdr[i + n..] == old(hdr[i + s..]) && hdr[i..i + 4] == Be32(tag)
    {
      hide Be32, Overwrite, Moved;
      ghost var was := hdr[..];
      var tail := hdr.Length - (i + s);
      granted := Realloc(hdr.Length - s + n);
      if !granted {
        assert !Granted(old(used));
        return;
      }
      ghost var before := hdr[..];
      if tail > 0 {
        MovedUp(was, before, i, i + n, i + s);
        MemMove(hdr, i + n, i + s, tail);
      } else {
        StoredAtEnd(was, before, i, Be32(tag));
        StoreBytes(hdr, i, Be32(tag));
      }
    }

    /** Length, value and padding of the entry at `i`, whose tag is there already. */
    method WriteEntry(i: nat, tag: nat, val: seq<byte>)
      requires |val| < U32 && i + 8 + Align(|val|) <= hdr.Length && hdr[i..i + 4] == Be32(tag)
      modifies hdr
      ensures hdr[..] == Overwrite(old(hdr[..]), i, EntryBytes(NewEntry(tag, val)))
    {
      hide Be32, Overwrite, Align;
      ghost var b := hdr[..];
      StoreBytes(hdr, i + 4, Be32(|val|));
      StoreBytes(hdr, i + 8, val);
      var tail := |val| % ALIGNMENT;
      Padding(|val|);
      ghost var pad := Zeros(Align(|val|) - |val|);
      if tail != 0 {
        StoreBytes(hdr, i + 8 + |val|, Zeros(ALIGNMENT - tail));
      } else {
        StoredNothing(hdr[..], i + 8 + |val|);
      }
      FieldByField(b, i, Be32(tag), Be32(|val|), val, pad);
    }

    /** Where the entry of a tag starts, its size if there is one, and where the image ends. */
    method Locate(tag: nat) returns (i: nat, s: nat, end: nat)
      requires Valid() && tag < U32
      ensures i == HEADER + |Body(entries[..IndexOf(entries, tag)])| && s == SizeAt(entries, IndexOf(entries, tag))
      ensures end == hdr.Length && i + s <= end && s % 8 == 0 && FromBe32(hdr[12..16]) == end - HEADER
      ensures IndexOf(entries, tag) == |entries| <==> i == end
      ensures IndexOf(entries, tag) == |entries| <==> s == 0
      ensures s > 0 ==> s >= 8 && hdr[i..i + 4] == Be32(tag)
      ensures hdr[..8] == magic && hdr[HEADER..i] == Body(entries[..IndexOf(entries, tag)])
      ensures hdr[i + s..] == if s > 0 then Body(entries[IndexOf(entries, tag) + 1..]) else []
    {
      hide Image, Body, EntryBytes, EntrySize, Be32, FromBe32, Align, IndexOf, Size32, SizeAt;
      ghost var k := IndexOf(entries, tag);
      ImageParts(magic, Body(entries));
      ImageEdges(hdr[..], magic, entries, k);
      var size := BodySize();
      end := HEADER + size;
      i := Find(tag);
      s := if i == end then 0 else Size32(FromBe32(hdr[i + 4..i + 8]));
    }

    /** Sets the value of a tag, or leaves everything as it was. */
    method Set(tag: nat, val: seq<byte>) returns (code: Code)
      requires Valid() && tag < U32 && Fits32(hdr.Length, SizeAt(entries, IndexOf(entries, tag)), |val|, limit)
      modifies this, hdr
      ensures Valid() && magic == old(magic) && used >= old(used)
      ensures code == Einval <==> |val| > INT32_MAX
      ensures code == Emsgsize <==> |val| <= INT32_MAX && HEADER + |Body(Updated(old(entries), tag, val))| > limit
      ensures code == Enomem <==> !AllGranted(old(used))
      ensures code == Done ==> entries == Updated(old(entries), tag, val)
      ensures code == Done || code == Einval || code == Emsgsize || code == Enomem
      ensures code != Done ==> hdr == old(hdr) && hdr[..] == old(hdr[..]) && entries == old(entries)
    {
      hide Image, Body, EntryBytes, EntrySize, Be32, FromBe32, Align, IndexOf, Growth, Size32, SizeT, Updated,
        Overwrite, SizeAt, AllWf, Distinct;
      ghost var es := entries;
      var i, s, end := Locate(tag);
      var diff := Growth(|val|, s);
      if |val| > INT32_MAX {
        return Einval;
      }
      UpdatedBody(es, tag, val);
      var n := SizeT(end + SizeT(diff));
      if n > limit {
        return Emsgsize;
      }
      assert diff == 8 + Align(|val|) - s;
      var granted := Replace(i, s, diff, tag, val);
      if !granted {
        return Enomem;
      }
      entries := Updated(entries, tag, val);
      assert hdr[..] == Image(magic, Body(entries)) && hdr.Length <= limit;
      code := Done;
    }

    /** Replaces the entry of `s` bytes at `i`, or puts a new one at the end. */
    method Replace(i: nat, s: nat, diff: int, tag: nat, val: seq<byte>) returns (granted: bool)
      requires HEADER <= i && i + s <= hdr.Length && (s == 0 ==> i == hdr.Length)
      requires s > 0 ==> s >= 8 && hdr[i..i + 4] == Be32(tag)
      requires |val| < U32 && diff == 8 + Align(|val|) - s && hdr.Length + diff < U32 && tag < U32
      requires FromBe32(hdr[12..16]) == hdr.Length - HEADER
      modifies this`hdr, this`used, hdr
      ensures used >= old(used) && (granted <==> AllGranted(old(used)))
      ensures !granted ==> hdr == old(hdr) && hdr[..] == old(hdr[..])
      ensures granted ==>
        hdr[..] == Image(old(hdr[..8]), old(hdr[HEADER..i]) + EntryBytes(NewEntry(tag, val)) + old(hdr[i + s..]))
    {
      hide Image, EntryBytes, EntrySize, Be32, FromBe32, Align, Overwrite, NewEntry;
      ghost var was := hdr[..];
      ghost var e := EntryBytes(NewEntry(tag, val));
      NewEntrySize(tag, val);
      granted := Resize(i, s, s + diff, tag);
      if granted {
        ghost var resized := hdr[..];
        WriteEntry(i, tag, val);
        Rewritten(was, resized, i, s, e);
        UpdateHeader(diff);
      }
    }

    /** Deletes a tag, or leaves everything as it was. */
    method Del(tag: nat) returns (code: Code)
      requires Valid() && tag < U32 && hdr.Length <= INT32_MAX
      modifies this, hdr
      ensures Valid() && magic == old(magic) && used >= old(used)
      ensures code == Enoent <==> Lookup(old(entries), tag) == None
      ensures code == Enomem <==> !AllGranted(old(used))
      ensures code == Done ==> entries == Deleted(old(entries), tag)
      ensures code == Done || code == Enoent || code == Enomem
      ensures code != Done ==> hdr == old(hdr) && hdr[..] == old(hdr[..]) && entries == old(entries)
    {
      hide Image, Body, EntryBytes, EntrySize, Be32, FromBe32, Align, IndexOf, Size32, Deleted, Overwrite, SizeAt,
        AllWf, Distinct;
      ghost var es, was := entries, hdr[..];
      var i, s, end := Locate(tag);
      if i == end {
        return Enoent;
      }
      var granted := Shrink(i, s, 0);
      if !granted {
        return Enomem;
      }
      DeletedBody(es, tag);
      Rewritten(was, hdr[..], i, s, []);
      StoredNothing(hdr[..], i);
      ConcatEmpty(was[HEADER..i]);
      UpdateHeader(0 - (s as int));
      entries := Deleted(entries, tag);
      assert hdr[..] == Image(magic, Body(entries)) && hdr.Length <= limit;
      code := Done;
    }
  }

  lemma Padding(n: nat)
    ensures Align(n) - n == if n % ALIGNMENT == 0 then 0 else ALIGNMENT - n % ALIGNMENT
  {
  }

  lemma StoredNothing(b: seq<byte>, i: nat)
    requires i <= |b|
    ensures Overwrite(b, i, []) == b
  {
  }

  lemma FieldByField(b: seq<byte>, i: nat, t: seq<byte>, n: seq<byte>, v: seq<byte>, p: seq<byte>)
    requires |t| == |n| == 4 && i + 8 + |v| + |p| <= |b| && b[i..i + 4] == t
    ensures Overwrite(Overwrite(Overwrite(b, i + 4, n), i + 8, v), i + 8 + |v|, p) == Overwrite(b, i, t + n + v + p)
  {
    var c := Overwrite(Overwrite(b, i + 4, n), i + 8, v);
    assert b[..i + 4] == b[..i] + t;
    assert c == b[..i] + t + n + v + b[i + 8 + |v|..];
  }

  /** The size of entry `k`; nothing is at the end. */
  function SizeAt(es: seq<Entry>, k: nat): (s: nat)
    requires AllWf(es) && k <= |es|
  {
    if k < |es| then EntrySize(es[k]) else 0
  }

  /** The image before and after entry `k`, and the tag at its start. */
  lemma ImageEdges(image: seq<byte>, magic: seq<byte>, es: seq<Entry>, k: nat)
    requires |magic| == 8 && AllWf(es) && image == Image(magic, Body(es)) && |image| < U32 && k <= |es|
    ensures var i, s := HEADER + |Body(es[..k])|, SizeAt(es, k);
            && i + s <= |image| && s % 8 == 0 && (k == |es| <==> i == |image|) && (k < |es| <==> s >= 8)
            && image[HEADER..i] == Body(es[..k])
            && image[i + s..] == (if k < |es| then Body(es[k + 1..]) else [])
            && (k < |es| ==> image[i..i + 4] == Be32(es[k].tag) && Size32(FromBe32(image[i + 4..i + 8])) == s)
  {
    hide Image, Body, EntryBytes, FromBe32, Be32;
    var body := Body(es);
    ImageParts(magic, body);
    if k < |es| {
      var i := |Body(es[..k])|;
      EntryAt(body, es, k);
      WalkOn(image, magic, es, k);
      EdgesOfTail(image, body, i, EntrySize(es[k]));
      Be32OfFromBe32(image[HEADER + i..HEADER + i + 4]);
    } else {
      NoBody(es);
    }
  }

  lemma EdgesOfTail(image: seq<byte>, body: seq<byte>, i: nat, s: nat)
    requires |image| >= HEADER && image[HEADER..] == body && i + s <= |body|
    ensures image[HEADER..HEADER + i] == body[..i] && image[HEADER + i + s..] == body[i + s..]
  {
  }

  lemma NewEntrySize(tag: nat, val: seq<byte>)
    requires tag < U32 && |val| < U32
    ensures |EntryBytes(NewEntry(tag, val))| == 8 + Align(|val|)
  {
  }

  lemma UpdatedBody(es: seq<Entry>, tag: nat, val: seq<byte>)
    requires AllWf(es) && Distinct(es) && tag < U32 && |val| < U32
    ensures var k := IndexOf(es, tag);
            Body(Updated(es, tag, val))
            == Body(es[..k]) + EntryBytes(NewEntry(tag, val)) + (if k < |es| then Body(es[k + 1..]) else [])
    ensures Distinct(Updated(es, tag, val)) && AllWf(Updated(es, tag, val))
    ensures |Body(Updated(es, tag, val))| == |Body(es)| - SizeAt(es, IndexOf(es, tag)) + 8 + Align(|val|)
  {
    hide Body, EntryBytes, IndexOf, NewEntry, EntryWf, SizeAt;
    var k, r, e := IndexOf(es, tag), Updated(es, tag, val), NewEntry(tag, val);
    var rest := if k < |es| then Body(es[k + 1..]) else [];
    UpdatedActsAsMap(es, tag, val, tag);
    UpdatedKeepsWf(es, tag, val);
    BodySplit(r, k);
    assert r[..k] == es[..k] && r[k] == e;
    if k < |es| {
      assert r[k + 1..] == es[k + 1..];
    } else {
      assert r[k + 1..] == [];
      NoBody([]);
    }
    ConcatAssoc(Body(es[..k]), EntryBytes(e), rest);
    NewEntrySize(tag, val);
    BodyEdges(es, k);
  }

  lemma DeletedBody(es: seq<Entry>, tag: nat)
    requires AllWf(es) && Distinct(es) && IndexOf(es, tag) < |es|
    ensures var k := IndexOf(es, tag); Body(Deleted(es, tag)) == Body(es[..k]) + Body(es[k + 1..])
    ensures Distinct(Deleted(es, tag)) && AllWf(Deleted(es, tag))
  {
    hide Body, EntryBytes, IndexOf, EntryWf;
    var k, r := IndexOf(es, tag), Deleted(es, tag);
    DeletedActsAsMap(es, tag, tag);
    BodySplit(r, k);
    assert r[..k] == es[..k] && r[k..] == es[k + 1..];
  }

  lemma BodyEdges(es: seq<Entry>, k: nat)
    requires AllWf(es) && k <= |es|
    ensures |Body(es)| == |Body(es[..k])| + SizeAt(es, k) + if k < |es| then |Body(es[k + 1..])| else 0
  {
    hide Body, EntryBytes;
    if k < |es| {
      BodySplit(es, k);
    } else {
      NoBody(es);
    }
  }

  lemma UpdatedKeepsWf(es: seq<Entry>, tag: nat, val: seq<byte>)
    requires AllWf(es) && tag < U32 && |val| < U32
    ensures AllWf(Updated(es, tag, val))
  {
    hide IndexOf;
  }

  /** An edit beyond the header. */
  lemma Rewritten(was: seq<byte>, resized: seq<byte>, i: nat, s: nat, e: seq<byte>)
    requires HEADER <= i && i + s <= |was| && |resized| == |was| - s + |e|
    requires resized[..i] == was[..i] && resized[i + |e|..] == was[i + s..]
    ensures var r := Overwrite(resized, i, e);
            && r[..8] == was[..8] && r[12..16] == was[12..16]
            && r[HEADER..] == was[HEADER..i] + e + was[i + s..]
  {
    var r := Overwrite(resized, i, e);
    assert r[..i] == was[..i];
    assert r[..8] == r[..i][..8] && r[12..16] == r[..i][12..16] && r[HEADER..i] == r[..i][HEADER..];
  }

  lemma NoBody(es: seq<Entry>)
    ensures |Body(es[..0])| == 0 && es[..|es|] == es
  {
  }

  /** Only all the entries together are as long as all of them. */
  lemma AtTheEnd(es: seq<Entry>, k: nat)
    requires AllWf(es) && k <= |es| && |Body(es[..k])| == |Body(es)|
    ensures k == |es|
  {
    hide Body, EntryBytes;
    if k < |es| {
      EntryAt(Body(es), es, k);
    }
  }

  /** What the walk reads at entry `k`, and how far it steps. */
  lemma WalkOn(image: seq<byte>, magic: seq<byte>, es: seq<Entry>, k: nat)
    requires |magic| == 8 && AllWf(es) && image == Image(magic, Body(es)) && |image| < U32
    requires k <= |es| && HEADER + |Body(es[..k])| != |image|
    ensures k < |es|
    ensures var i := HEADER + |Body(es[..k])|;
            && i + EntrySize(es[k]) == HEADER + |Body(es[..k + 1])| <= |image|
            && FromBe32(image[i..i + 4]) == es[k].tag && FromBe32(image[i + 4..i + 8]) == |es[k].val|
            && image[i + 8..i + 8 + |es[k].val|] == es[k].val
            && Size32(|es[k].val|) == EntrySize(es[k])
  {
    hide Image, Body, EntryBytes, FromBe32;
    if k == |es| {
      NoBody(es);
      assert false;
    }
    var body := Body(es);
    ImageParts(magic, body);
    EntryAt(body, es, k);
    var b, i := image[HEADER..], |Body(es[..k])|;
    assert b == body;
    SliceOfTail(image, HEADER, i, i + 4);
    SliceOfTail(image, HEADER, i + 4, i + 8);
    SliceOfTail(image, HEADER, i + 8, i + 8 + |es[k].val|);
    Size32IsExact(|es[k].val|);
  }

  lemma SliceOfTail(s: seq<byte>, n: nat, i: nat, j: nat)
    requires i <= j && n + j <= |s|
    ensures s[n..][i..j] == s[n + i..n + j]
  {
  }

  lemma SizeEdit(m: seq<byte>, c: seq<byte>, n: seq<byte>, body: seq<byte>, n': seq<byte>)
    requires |m| == 8 && |c| == |n| == |n'| == 4
    ensures var b := m + c + n + body; Overwrite(b, 12, n') == m + c + n' + body
  {
  }

  lemma ChecksumEdit(m: seq<byte>, c: seq<byte>, n: seq<byte>, body: seq<byte>, c': seq<byte>)
    requires |m| == 8 && |c| == |n| == |c'| == 4
    ensures var b := m + c + n + body; Overwrite(b, 8, c') == m + c' + n + body
  {
  }
}
