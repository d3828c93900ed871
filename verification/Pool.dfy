/**
 The pool allocator of documents: a static block first and then blocks from the heap, each used
 from its start to its end. Nothing is given back before everything is.
 */
module Pool {
  import opened Bytes

  const WORD: nat := 8
  const SIZE_MAX: nat := 0xFFFF_FFFF_FFFF_FFFF

  /** An address: a byte of a block. Block 0 is the static one. */
  datatype Place = Place(block: nat, offset: nat) | Null

  datatype Piece = Piece(at: Place, size: nat)

  /** In `size_t`, that is, rounded up modulo the word size of the machine. */
  function Aligned(size: nat): (n: nat)
    ensures n % WORD == 0
  {
    (size + WORD - 1) % (SIZE_MAX + 1) / WORD * WORD
  }

  /** Only the last few sizes are rounded down, to nothing at all. */
  lemma AlignedIsEnough(size: nat)
    requires size <= SIZE_MAX
    ensures Aligned(size) >= size <==> size <= SIZE_MAX - (WORD - 1)
    ensures size > SIZE_MAX - (WORD - 1) ==> Aligned(size) == 0
    ensures size <= SIZE_MAX - (WORD - 1) ==> Aligned(size) < size + WORD
  {
  }

  /** What a block for such a piece has to hold, in `size_t`: its link and the piece. */
  function Need(size: nat): (n: nat) {
    (WORD + Aligned(size)) % (SIZE_MAX + 1)
  }

  /** A new block is large enough but for the last fifteen sizes. */
  lemma NeedIsEnough(size: nat)
    requires size <= SIZE_MAX
    ensures Need(size) >= WORD + size <==> size <= SIZE_MAX - (2 * WORD - 1)
    ensures size <= SIZE_MAX - (2 * WORD - 1) ==> Need(size) == WORD + Aligned(size)
  {
    AlignedIsEnough(size);
  }

  /** What is available in the current block, and what all blocks from the heap take. */
  datatype Level = Level(available: nat, dynamic: nat)

  /** Taking a piece from the current block or from a new one. */
  function Take(l: Level, blockSize: nat, aligned: nat): (r: Level) {
    var need := WORD + aligned;
    if l.available >= aligned then l.(available := l.available - aligned)
    else if need < blockSize then Level(blockSize - need, l.dynamic + blockSize)
    else Level(0, l.dynamic + need)
  }

  /**
   The rounding of some sizes, and the same piece from a block with room, from a new block, and
   from a block of its own.
   */
  lemma SomePieces()
    ensures Aligned(0) == 0 && Aligned(1) == 8 && Aligned(8) == 8 && Aligned(9) == 16
    ensures WORD == 8 && SIZE_MAX == 18_446_744_073_709_551_615
    ensures Take(Level(100, 0), 512, 40) == Level(60, 0)
    ensures Take(Level(39, 0), 512, 40) == Level(464, 512)
    ensures Take(Level(39, 0), 48, 40) == Level(0, 48)
  {
  }

  function TakeAll(l: Level, blockSize: nat, sizes: seq<nat>): (r: Level)
    decreases |sizes|
  {
    if sizes == [] then l else TakeAll(Take(l, blockSize, Aligned(sizes[0])), blockSize, sizes[1..])
  }

  function AlignedSum(sizes: seq<nat>): (n: nat) {
    if sizes == [] then 0 else Aligned(sizes[0]) + AlignedSum(sizes[1..])
  }

  lemma {:induction false} DynamicGrows(l: Level, blockSize: nat, sizes: seq<nat>)
    ensures TakeAll(l, blockSize, sizes).dynamic >= l.dynamic
    decreases |sizes|
  {
    hide Aligned;
    if sizes == [] {
    } else {
      DynamicGrows(Take(l, blockSize, Aligned(sizes[0])), blockSize, sizes[1..]);
    }
  }

  /** Nothing is taken from the heap exactly if all pieces fit into what is available. */
  lemma {:induction false} FitsWithoutHeap(l: Level, blockSize: nat, sizes: seq<nat>)
    ensures TakeAll(l, blockSize, sizes).dynamic == l.dynamic <==> AlignedSum(sizes) <= l.available
    decreases |sizes|
  {
    hide Aligned;
    if sizes == [] {
    } else {
      var r := Take(l, blockSize, Aligned(sizes[0]));
      DynamicGrows(r, blockSize, sizes[1..]);
      if l.available >= Aligned(sizes[0]) {
        FitsWithoutHeap(r, blockSize, sizes[1..]);
      }
    }
  }

  function Sum(ns: seq<nat>): nat {
    if ns == [] then 0 else Sum(ns[..|ns| - 1]) + ns[|ns| - 1]
  }

  lemma SumOfOneMore(ns: seq<nat>, n: nat)
    ensures Sum(ns + [n]) == Sum(ns) + n
  {
    assert (ns + [n])[..|ns|] == ns;
  }

  predicate Disjoint(p: Piece, q: Piece)
    requires p.at.Place? && q.at.Place?
  {
    p.at.block != q.at.block || p.at.offset + p.size <= q.at.offset || q.at.offset + q.size <= p.at.offset
  }

  /** A piece lies in its block, behind the link of a block from the heap, and starts at a word. */
  predicate Inside(p: Piece, memory: seq<seq<byte>>) {
    && p.at.Place? && p.at.block < |memory| && p.at.offset + p.size <= |memory[p.at.block]|
    && p.at.offset % WORD == 0 && (p.at.block > 0 ==> p.at.offset >= WORD)
  }

  function ReadAt(memory: seq<seq<byte>>, p: Place, n: nat): seq<byte>
    requires p.Place? && p.block < |memory| && p.offset + n <= |memory[p.block]|
  {
    memory[p.block][p.offset..p.offset + n]
  }

  /** A text that was stored, with its terminator. */
  datatype Text = Text(at: Place, bytes: seq<byte>)

  /** The place of a text is a piece that it fits in, and it can still be read there. */
  predicate ReadsBack(memory: seq<seq<byte>>, pieces: seq<Piece>, t: Text) {
    exists k :: 0 <= k < |pieces| && Inside(pieces[k], memory) && pieces[k].at == t.at && |t.bytes| <= pieces[k].size
                && ReadAt(memory, t.at, |t.bytes|) == t.bytes
  }

  function SizesOf(memory: seq<seq<byte>>): (r: seq<nat>)
    ensures |r| == |memory| && forall k :: 0 <= k < |r| ==> r[k] == |memory[k]|
  {
    seq(|memory|, k requires 0 <= k < |memory| => |memory[k]|)
  }

  predicate PiecesOk(pieces: seq<Piece>, memory: seq<seq<byte>>) {
    && (forall i :: 0 <= i < |pieces| ==> Inside(pieces[i], memory) && pieces[i].size > 0)
    && (forall i, j :: 0 <= i < j < |pieces| ==> Disjoint(pieces[i], pieces[j]))
  }

  /** The pieces of a block end where the rest of the block starts. */
  predicate Below(pieces: seq<Piece>, block: nat, limit: nat) {
    forall i :: 0 <= i < |pieces| && pieces[i].at.Place? && pieces[i].at.block == block ==>
      pieces[i].at.offset + pieces[i].size <= limit
  }

  predicate TextsOk(texts: seq<Text>, memory: seq<seq<byte>>, pieces: seq<Piece>) {
    forall i :: 0 <= i < |texts| ==> ReadsBack(memory, pieces, texts[i])
  }

  lemma PieceAdded(pieces: seq<Piece>, memory: seq<seq<byte>>, p: Piece)
    requires PiecesOk(pieces, memory) && Inside(p, memory) && p.size > 0 && Below(pieces, p.at.block, p.at.offset)
    ensures PiecesOk(pieces + [p], memory) && Below(pieces + [p], p.at.block, p.at.offset + p.size)
  {
  }

  lemma BlockAdded(pieces: seq<Piece>, memory: seq<seq<byte>>, block: seq<byte>)
    requires PiecesOk(pieces, memory)
    ensures PiecesOk(pieces, memory + [block]) && Below(pieces, |memory|, 0)
  {
  }

  /** Texts stay where they are when blocks and pieces are added. */
  lemma TextsStay(texts: seq<Text>, memory: seq<seq<byte>>, pieces: seq<Piece>, memory': seq<seq<byte>>,
                  pieces': seq<Piece>)
    requires TextsOk(texts, memory, pieces) && memory <= memory' && pieces <= pieces'
    ensures TextsOk(texts, memory', pieces')
  {
    forall i | 0 <= i < |texts|
      ensures ReadsBack(memory', pieces', texts[i])
    {
      var t := texts[i];
      assert ReadsBack(memory, pieces, t);
      var k :| 0 <= k < |pieces| && Inside(pieces[k], memory) && pieces[k].at == t.at && |t.bytes| <= pieces[k].size
                && ReadAt(memory, t.at, |t.bytes|) == t.bytes;
      assert pieces'[k] == pieces[k] && Inside(pieces'[k], memory');
    }
  }

  lemma DynamicAdded(memory: seq<seq<byte>>, block: seq<byte>)
    requires memory != []
    ensures Sum(SizesOf((memory + [block])[1..])) == Sum(SizesOf(memory[1..])) + |block|
  {
    assert (memory + [block])[1..] == memory[1..] + [block];
    assert SizesOf(memory[1..] + [block]) == SizesOf(memory[1..]) + [|block|];
    SumOfOneMore(SizesOf(memory[1..]), |block|);
  }

  class Pool {
    const dynamicSize: nat
    var memory: seq<seq<byte>>
    var available: nat
    var totalAllocated: nat
    var totalDynamic: nat
    var valid: bool
    ghost var pieces: seq<Piece>
    ghost var sizes: seq<nat>
    ghost var texts: seq<Text>

    /** Where the code takes the current block to end: from its nominal size, whatever was allocated. */
    function BlockEnd(): nat
      reads this
      requires memory != []
    {
      if |memory| == 1 then |memory[0]| else dynamicSize
    }

    /** What is taken of the current block and what is available make up the block. */
    ghost predicate Fits()
      reads this
    {
      && memory != [] && available <= BlockEnd()
      && (available > 0 ==> BlockEnd() == |memory[|memory| - 1]| && (BlockEnd() - available) % WORD == 0)
      && (available > 0 && |memory| > 1 ==> BlockEnd() - available >= WORD)
      && (available > 0 ==> Below(pieces, |memory| - 1, BlockEnd() - available))
    }

    ghost predicate Valid()
      reads this
    {
      && Fits() && PiecesOk(pieces, memory) && TextsOk(texts, memory, pieces)
      && totalDynamic == Sum(SizesOf(memory[1..])) && totalAllocated == Sum(sizes)
    }

    constructor (staticBlock: seq<byte>, dynamicSize: nat)
      ensures Valid() && pieces == [] && texts == [] && memory == [staticBlock] && this.dynamicSize == dynamicSize
              && valid
    {
      this.dynamicSize := dynamicSize;
      memory, available, totalAllocated, totalDynamic, valid := [staticBlock], |staticBlock|, 0, 0, true;
      pieces, sizes, texts := [], [], [];
    }

    /** A piece that nothing else has, in a block that lives as long as the pool is not cleared. */
    method Malloc(size: nat, granted: bool) returns (p: Place)
      requires Valid() && size <= SIZE_MAX - (2 * WORD - 1)
      modifies this
      ensures Valid() && texts == old(texts)
      ensures p == Null <==> !valid
      ensures !old(valid) ==> p == Null && memory == old(memory) && pieces == old(pieces)
      ensures !valid ==> pieces == old(pieces) && (old(valid) ==> !granted)
      ensures old(memory) <= memory
      ensures p != Null && size > 0 ==>
              |pieces| == |old(pieces)| + 1 && pieces == old(pieces) + [Piece(p, Aligned(size))]
                && size <= Aligned(size)
      ensures p != Null && size == 0 ==> pieces == old(pieces)
      ensures p != Null ==> totalAllocated == old(totalAllocated) + size
      ensures p != Null ==>
                Level(available, totalDynamic) == Take(old(Level(available, totalDynamic)), dynamicSize, Aligned(size))
    {
      hide PiecesOk, Below, TextsOk, Sum, SizesOf, Aligned;
      AlignedIsEnough(size);
      NeedIsEnough(size);
      var aligned := Aligned(size);
      p := Null;
      if !valid {
        return;
      }
      if available >= aligned {
        p := Place(|memory| - 1, BlockEnd() - available);
        available := available - aligned;
      } else {
        if !granted {
          valid := false;
          return;
        }
        p := NewBlock(size, aligned);
        RestOfBlock(pieces, |memory| - 1, WORD);
      }
      SumOfOneMore(sizes, size);
      totalAllocated := totalAllocated + size;
      sizes := sizes + [size];
      if size > 0 {
        PieceAdded(pieces, memory, Piece(p, aligned));
        TextsStay(texts, memory, pieces, memory, pieces + [Piece(p, aligned)]);
        pieces := pieces + [Piece(p, aligned)];
      }
    }

    /** Starts a block that has room for `aligned` bytes behind its link, and takes them. */
    method NewBlock(ghost size: nat, aligned: nat) returns (p: Place)
      requires Valid() && valid && aligned == Aligned(size) && Need(size) == WORD + aligned
      modifies this`memory, this`available, this`totalDynamic
      ensures Valid() && p == Place(|memory| - 1, WORD) && |memory| == |old(memory)| + 1 && old(memory) <= memory
      ensures WORD + aligned <= |memory[|memory| - 1]| && Below(pieces, |memory| - 1, 0)
      ensures available > 0 ==> BlockEnd() - available == WORD + aligned
      ensures old(available) < aligned ==>
                Level(available, totalDynamic) == Take(old(Level(available, totalDynamic)), dynamicSize, aligned)
    {
      hide PiecesOk, Below, TextsOk, Sum, SizesOf, Aligned;
      var need := (WORD + aligned) % (SIZE_MAX + 1);
      var allocSize := if need < dynamicSize then dynamicSize else need;
      var a := new byte[allocSize];
      ghost var block := a[..];
      BlockAdded(pieces, memory, block);
      DynamicAdded(memory, block);
      TextsStay(texts, memory, pieces, memory + [block], pieces);
      RestOfBlock(pieces, |memory|, need);
      memory := memory + [a[..]];
      available := allocSize - need;
      totalDynamic := totalDynamic + allocSize;
      p := Place(|memory| - 1, WORD);
    }

    /** A copy of a string with its terminator, which stays readable whatever is allocated later. */
    method Strdup(s: seq<byte>, granted: bool) returns (p: Place)
      requires Valid() && NulFree(s) && |s| < SIZE_MAX - (2 * WORD - 1)
      modifies this
      ensures Valid() && (p == Null <==> !valid)
      ensures texts == old(texts) + (if p == Null then [] else [Text(p, s + [0])])
    {
      hide PiecesOk, Below, TextsOk, Sum, SizesOf, Aligned;
      p := Malloc(|s| + 1, granted);
      if p != Null {
        TextsStay(texts, old(memory), old(pieces), memory, old(pieces));
        assert pieces[..|pieces| - 1] == old(pieces);
        Store(p, s + [0]);
      }
    }

    /** The part of a string up to its terminator, and no more than `size` bytes of it. */
    method Strndup(s: seq<byte>, size: nat, granted: bool) returns (p: Place)
      requires Valid() && |s| < SIZE_MAX - (2 * WORD - 1) && (size <= |s| || !NulFree(s))
      modifies this
      ensures Valid() && (p == Null <==> !valid)
      ensures
        var n := if |CStr(s)| < size then |CStr(s)| else size;
        texts == old(texts) + (if p == Null then [] else [Text(p, s[..n] + [0])])
    {
      hide PiecesOk, Below, TextsOk, Sum, SizesOf, Aligned, CStr;
      var n := 0;
      while n < size && s[n] != 0
        invariant n <= size && n <= |CStr(s)|
      {
        assert |CStr(s)| < |s| ==> s[|CStr(s)|] == 0;
        n := n + 1;
      }
      assert n < |CStr(s)| ==> CStr(s)[n] == s[n] != 0;
      p := Malloc(n + 1, granted);
      if p != Null {
        TextsStay(texts, old(memory), old(pieces), memory, old(pieces));
        assert pieces[..|pieces| - 1] == old(pieces);
        Store(p, s[..n] + [0]);
      }
    }

    /** Writes a text to the piece that was handed out last, and that no text is in yet. */
    method Store(p: Place, bytes: seq<byte>)
      requires Valid() && pieces != [] && pieces[|pieces| - 1].at == p && |bytes| <= pieces[|pieces| - 1].size
      requires TextsOk(texts, memory, pieces[..|pieces| - 1])
      modifies this`memory, this`texts
      ensures Valid() && texts == old(texts) + [Text(p, bytes)]
    {
      hide Sum, Aligned, TextsOk, Below;
      ghost var m := memory;
      memory := Written(memory, p, bytes);
      SizesStay(m, p, bytes);
      PiecesStay(pieces, m, p, bytes);
      OthersStay(texts, m, pieces, p, bytes);
      texts := texts + [Text(p, bytes)];
    }

    /** Frees every block from the heap, each once and the newest first, and starts anew. */
    method Clear() returns (ghost freed: seq<nat>)
      requires Valid()
      modifies this
      ensures Valid() && pieces == [] && texts == [] && valid && |memory| == 1 && |memory[0]| == |old(memory[0])|
      ensures available == |memory[0]| && totalAllocated == 0 && totalDynamic == 0
      ensures |freed| == |old(memory)| - 1 && forall k :: 0 <= k < |freed| ==> freed[k] == |old(memory)| - 1 - k
    {
      freed := [];
      while |memory| > 1
        invariant memory != [] && memory[0] == old(memory[0]) && |freed| + |memory| == |old(memory)|
        invariant forall k :: 0 <= k < |freed| ==> freed[k] == |old(memory)| - 1 - k
        decreases |memory|
      {
        freed := freed + [|memory| - 1];
        memory := memory[..|memory| - 1];
      }
      available, totalAllocated, totalDynamic, valid := |memory[0]|, 0, 0, true;
      pieces, sizes, texts := [], [], [];
    }
  }

  lemma RestOfBlock(pieces: seq<Piece>, block: nat, limit: nat)
    requires Below(pieces, block, 0)
    ensures Below(pieces, block, limit)
  {
  }

  function Written(memory: seq<seq<byte>>, p: Place, bytes: seq<byte>): (m: seq<seq<byte>>)
    requires p.Place? && p.block < |memory| && p.offset + |bytes| <= |memory[p.block]|
    ensures |m| == |memory| && forall k :: 0 <= k < |m| ==> |m[k]| == |memory[k]|
  {
    var b := memory[p.block];
    memory[p.block := b[..p.offset] + bytes + b[p.offset + |bytes|..]]
  }

  lemma SizesStay(memory: seq<seq<byte>>, p: Place, bytes: seq<byte>)
    requires p.Place? && p.block < |memory| && p.offset + |bytes| <= |memory[p.block]|
    ensures SizesOf(Written(memory, p, bytes)[1..]) == SizesOf(memory[1..])
  {
  }

  lemma PiecesStay(pieces: seq<Piece>, memory: seq<seq<byte>>, p: Place, bytes: seq<byte>)
    requires p.Place? && p.block < |memory| && p.offset + |bytes| <= |memory[p.block]| && PiecesOk(pieces, memory)
    ensures PiecesOk(pieces, Written(memory, p, bytes))
  {
    assert forall i :: 0 <= i < |pieces| ==> Inside(pieces[i], memory);
  }

  /** A text in one piece does not touch the others. */
  lemma OthersStay(texts: seq<Text>, memory: seq<seq<byte>>, pieces: seq<Piece>, p: Place, bytes: seq<byte>)
    requires PiecesOk(pieces, memory) && pieces != [] && pieces[|pieces| - 1].at == p
             && |bytes| <= pieces[|pieces| - 1].size
    requires TextsOk(texts, memory, pieces[..|pieces| - 1])
    ensures TextsOk(texts + [Text(p, bytes)], Written(memory, p, bytes), pieces)
  {
    hide PiecesOk;
    LastPiece(pieces, memory);
    var last, m, more := |pieces| - 1, Written(memory, p, bytes), texts + [Text(p, bytes)];
    PiecesStay(pieces, memory, p, bytes);
    forall i | 0 <= i < |more|
      ensures ReadsBack(m, pieces, more[i])
    {
      LastPiece(pieces, m);
      if i == |texts| {
        assert ReadAt(m, p, |bytes|) == bytes;
        assert 0 <= last < |pieces|;
      } else {
        assert ReadsBack(memory, pieces[..last], texts[i]);
        var k := PieceOf(memory, pieces[..last], texts[i]);
        PieceApart(pieces, memory, k);
        PieceApart(pieces, m, k);
        ReadApart(memory, p, bytes, texts[i].at, |texts[i].bytes|);
        assert pieces[..last][k] == pieces[k];
      }
    }
  }

  lemma PieceOf(memory: seq<seq<byte>>, pieces: seq<Piece>, t: Text) returns (k: nat)
    requires ReadsBack(memory, pieces, t)
    ensures k < |pieces| && Inside(pieces[k], memory) && pieces[k].at == t.at && |t.bytes| <= pieces[k].size
    ensures ReadAt(memory, t.at, |t.bytes|) == t.bytes
  {
    k :| 0 <= k < |pieces| && Inside(pieces[k], memory) && pieces[k].at == t.at && |t.bytes| <= pieces[k].size
         && ReadAt(memory, t.at, |t.bytes|) == t.bytes;
  }

  lemma LastPiece(pieces: seq<Piece>, memory: seq<seq<byte>>)
    requires PiecesOk(pieces, memory) && pieces != []
    ensures Inside(pieces[|pieces| - 1], memory)
  {
  }

  lemma PieceApart(pieces: seq<Piece>, memory: seq<seq<byte>>, k: nat)
    requires PiecesOk(pieces, memory) && k < |pieces| - 1
    ensures Inside(pieces[k], memory) && Disjoint(pieces[k], pieces[|pieces| - 1])
  {
    assert Inside(pieces[|pieces| - 1], memory);
  }

  lemma ReadApart(memory: seq<seq<byte>>, p: Place, bytes: seq<byte>, q: Place, n: nat)
    requires p.Place? && p.block < |memory| && p.offset + |bytes| <= |memory[p.block]|
    requires q.Place? && q.block < |memory| && q.offset + n <= |memory[q.block]|
    requires Disjoint(Piece(p, |bytes|), Piece(q, n))
    ensures ReadAt(Written(memory, p, bytes), q, n) == ReadAt(memory, q, n)
  {
  }
}
