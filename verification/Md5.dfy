/**
 MD5 as sections 3.1 to 3.5 of RFC 1321 define it for a whole message, and the code that takes
 the message in pieces.
 */
module Md5 {
  import opened Bytes
  import opened Md5Block

  const INIT: Quad := Quad(0x67452301, 0xefcdab89, 0x98badcfe, 0x10325476)
  const U64: nat := 0x1_0000_0000_0000_0000

  function Wide(b: byte): bv32 {
    (b as bv8) as bv32
  }

  /** Low-order byte first. */
  function Word(s: seq<byte>): bv32
    requires |s| == 4
  {
    (Wide(s[3]) << 24) | (Wide(s[2]) << 16) | (Wide(s[1]) << 8) | Wide(s[0])
  }

  function Words(s: seq<byte>): (w: seq<bv32>)
    requires |s| == 64
    ensures |w| == 16
  {
    seq(16, i requires 0 <= i < 16 => Word(s[4 * i..4 * i + 4]))
  }

  function WordBytes(w: bv32): (b: seq<byte>)
    ensures |b| == 4
  {
    [(w & 0xFF) as bv8 as byte, ((w >> 8) & 0xFF) as bv8 as byte, ((w >> 16) & 0xFF) as bv8 as byte,
      (w >> 24) as bv8 as byte]
  }

  function Le32(n: nat): (b: seq<byte>)
    ensures |b| == 4
  {
    var b := Be32(n);
    [b[3], b[2], b[1], b[0]]
  }

  /** A 64-bit number as two words, the low-order word first. */
  function Le64(n: nat): (b: seq<byte>)
    ensures |b| == 8
  {
    Le32(n % U32) + Le32(n / U32)
  }

  // ---- the digest of a whole message

  /** All whole blocks, one after the other. */
  function Fold(q: Quad, s: seq<byte>): Quad
    decreases |s|
  {
    if |s| < 64 then q else Fold(Block(q, Words(s[..64])), s[64..])
  }

  /** One bit and as many zeros as it takes to get to 56 bytes in a block. */
  function Padding(n: nat): (p: seq<byte>)
    ensures (n + |p| + 8) % 64 == 0 && 1 <= |p| <= 64
  {
    [0x80] + Zeros((119 - n % 64) % 64)
  }

  function Padded(m: seq<byte>): (p: seq<byte>)
    ensures |p| % 64 == 0
  {
    m + Padding(|m|) + Le64(8 * |m| % U64)
  }

  function Output(q: Quad): (b: seq<byte>)
    ensures |b| == 16
  {
    WordBytes(q.a) + WordBytes(q.b) + WordBytes(q.c) + WordBytes(q.d)
  }

  function Digest(m: seq<byte>): (b: seq<byte>)
    ensures |b| == 16
  {
    Output(Fold(INIT, Padded(m)))
  }

  lemma {:induction false} FoldConcat(q: Quad, s: seq<byte>, t: seq<byte>)
    requires |s| % 64 == 0
    ensures Fold(q, s + t) == Fold(Fold(q, s), t)
    decreases |s|
  {
    hide Block, Words;
    if s == [] {
      ConcatEmpty(t);
    } else {
      assert (s + t)[..64] == s[..64] && (s + t)[64..] == s[64..] + t;
      FoldConcat(Block(q, Words(s[..64])), s[64..], t);
    }
  }

  lemma FoldBlock(q: Quad, s: seq<byte>)
    requires |s| == 64
    ensures Fold(q, s) == Block(q, Words(s))
  {
    assert s[..64] == s && s[64..] == [];
  }

  // ---- the counter

  /** The two words hold the number of bits, as far as 64 bits do. */
  predicate Counts(b1: nat, b0: nat, n: nat) {
    b0 < U32 && b1 < U32 && b1 * U32 + b0 == 8 * n % U64
  }

  lemma SplitCount(b1: nat, b0: nat, n: nat)
    requires Counts(b1, b0, n)
    ensures b0 / 8 % 64 == n % 64
  {
    var k := 8 * n / U64;
    assert b0 == 8 * (n - k * 0x2000_0000_0000_0000 - b1 * 0x2000_0000);
    assert b0 / 8 == n - k * 0x2000_0000_0000_0000 - b1 * 0x2000_0000;
    assert b0 / 8 == n - 64 * (k * 0x80_0000_0000_0000 + b1 * 0x80_0000);
  }

  /** The low word after adding `len` bytes, and whether it has wrapped. */
  function LowAdd(b0: nat, len: nat): (r: nat)
    ensures r < U32
  {
    (b0 + len % U32 * 8 % U32) % U32
  }

  function HighAdd(b1: nat, b0: nat, len: nat): (r: nat)
    ensures r < U32
  {
    ((if LowAdd(b0, len) < b0 then (b1 + 1) % U32 else b1) + len / 0x2000_0000 % U32) % U32
  }

  lemma CountsMore(b1: nat, b0: nat, n: nat, len: nat)
    requires Counts(b1, b0, n) && len < U64
    ensures Counts(HighAdd(b1, b0, len), LowAdd(b0, len), n + len)
  {
    hide Counts;
    var hi, lo := len / 0x2000_0000, len % 0x2000_0000;
    CountsAreWords(b1, b0, n);
    LowPart(len);
    var carry := LowCarry(b0, len, lo);
    HighPart(b1, carry, hi);
    var k := (b1 + carry + hi) / U32;
    assert HighAdd(b1, b0, len) == (b1 + carry + hi) % U32;
    Gather(HighAdd(b1, b0, len), LowAdd(b0, len), b1, b0, carry, hi, lo, k, n, len);
  }

  lemma CountsAreWords(b1: nat, b0: nat, n: nat)
    requires Counts(b1, b0, n)
    ensures b1 < U32 && b0 < U32
  {
  }

  lemma LowCarry(b0: nat, len: nat, lo: nat) returns (carry: nat)
    requires b0 < U32 && lo < 0x2000_0000 && len % U32 * 8 % U32 == 8 * lo
    ensures carry <= 1 && LowAdd(b0, len) == b0 + 8 * lo - carry * U32 && (LowAdd(b0, len) < b0 <==> carry == 1)
  {
    carry := if b0 + 8 * lo < U32 then 0 else 1;
  }

  lemma LowPart(len: nat)
    ensures len % U32 * 8 % U32 == 8 * (len % 0x2000_0000)
  {
    var q := len % U32 / 0x2000_0000;
    assert len % U32 == q * 0x2000_0000 + len % U32 % 0x2000_0000;
    assert len % U32 % 0x2000_0000 == len % 0x2000_0000;
  }

  lemma HighPart(b1: nat, carry: nat, hi: nat)
    requires b1 < U32 && carry <= 1
    ensures ((b1 + carry) % U32 + hi % U32) % U32 == (b1 + carry + hi) % U32
  {
  }

  lemma Gather(h: nat, l: nat, b1: nat, b0: nat, carry: nat, hi: nat, lo: nat, k: nat, n: nat, len: nat)
    requires Counts(b1, b0, n) && len == hi * 0x2000_0000 + lo && h < U32 && l < U32
    requires l == b0 + 8 * lo - carry * U32 && h == b1 + carry + hi - k * U32
    ensures Counts(h, l, n + len)
  {
    var m := 8 * n / U64;
    assert h * U32 + l == 8 * (n + len) - (m + k) * U64;
    ModIs(8 * (n + len), m + k, h * U32 + l);
  }

  lemma ModIs(a: nat, k: nat, r: nat)
    requires r < U64 && a == k * U64 + r
    ensures a % U64 == r
  {
  }

  // ---- in pieces

  /** The bytes of a message that fill whole blocks. */
  function Whole(n: nat): (w: nat)
    ensures w <= n < w + 64 && w % 64 == 0
  {
    n - n % 64
  }

  class Md5State {
    var buf: Quad
    var bits0: nat
    var bits1: nat
    const pending: array<byte>
    ghost var message: seq<byte>

    /** The counter, the registers and the pending bytes all agree with the message so far. */
    ghost predicate Valid()
      reads this, pending
    {
      && pending.Length == 64 && Counts(bits1, bits0, |message|)
      && buf == Fold(INIT, message[..Whole(|message|)]) && Waits(message, pending[..])
    }

    constructor ()
      ensures Valid() && message == [] && fresh(pending)
    {
      buf, bits0, bits1, message := INIT, 0, 0, [];
      pending := new byte[64];
    }

    method Store(i: nat, x: seq<byte>)
      requires i + |x| <= pending.Length
      modifies pending
      ensures pending[..] == Overwrite(old(pending[..]), i, x)
    {
      for j := 0 to |x|
        invariant forall k :: 0 <= k < j ==> pending[i + k] == x[k]
        invariant forall k :: 0 <= k < i || i + j <= k < pending.Length ==> pending[k] == old(pending[k])
      {
        pending[i + j] := x[j];
      }
    }

    method TransformPending()
      requires pending.Length == 64
      modifies this`buf
      ensures buf == Fold(old(buf), pending[..])
    {
      hide Block, Words, Fold;
      FoldBlock(buf, pending[..]);
      buf := Transform(buf, Words(pending[..]));
    }

    method Count(len: nat)
      requires Counts(bits1, bits0, |message|) && len < U64
      modifies this`bits0, this`bits1
      ensures Counts(bits1, bits0, |message| + len)
    {
      CountsMore(bits1, bits0, |message|, len);
      var t := bits0;
      bits0 := (t + len % U32 * 8 % U32) % U32;
      if bits0 < t {
        bits1 := (bits1 + 1) % U32;
      }
      bits1 := (bits1 + len / 0x2000_0000 % U32) % U32;
    }

    /** Takes the next piece of the message. */
    method Update(data: seq<byte>)
      requires Valid() && |data| < U64
      modifies this, pending
      ensures Valid() && message == old(message) + data
    {
      hide Fold, Counts, Overwrite, Waits, Whole;
      ghost var m, was := message, pending[..];
      var t := bits0;
      SplitCount(bits1, bits0, |message|);
      Count(|data|);
      message := m + data;
      t := t / 8 % 64;
      var i := 0;
      if t > 0 {
        var space := 64 - t;
        if |data| < space {
          Store(t, data);
          StaysPending(m, data, was);
          return;
        }
        Store(t, data[..space]);
        FillsBlock(m, data, was);
        TransformPending();
        i := space;
      } else {
        StartsBlock(m, data);
      }
      while |data| - i >= 64
        invariant i <= |data| && message == m + data && Counts(bits1, bits0, |message|)
        invariant (|m| + i) % 64 == 0 && buf == Fold(INIT, message[..|m| + i])
      {
        NextBlock(m, data, i, pending[..]);
        Store(0, data[i..i + 64]);
        TransformPending();
        i := i + 64;
      }
      was := pending[..];
      Store(0, data[i..]);
      RestIsPending(m, data, i, was);
    }

    /** Adds the padding, which may fill a block. */
    method Pad() returns (ghost folded: seq<byte>)
      requires Valid()
      modifies this`buf, pending
      ensures |folded| % 64 == 0 && buf == Fold(INIT, folded) && folded + pending[..56] == message + Padding(|message|)
    {
      hide Fold, Overwrite, Zeros, Words, Padding, Whole, Block, Waits, Counts;
      ghost var m, was := message, pending[..];
      WholeIsAligned(|m|);
      folded := m[..Whole(|m|)];
      SplitCount(bits1, bits0, |m|);
      var count := bits0 / 8 % 64;
      Store(count, [0x80]);
      if 63 - count < 8 {
        Store(count + 1, Zeros(63 - count));
        LongPadding(m, was, pending[..]);
        folded := folded + pending[..];
        TransformPending();
        ghost var first := pending[..];
        Store(0, Zeros(56));
        StoredFirst(first, Zeros(56));
        assert pending[..56] == pending[..][..56];
      } else {
        Store(count + 1, Zeros(55 - count));
        ShortPadding(m, was, pending[..]);
        assert pending[..56] == pending[..][..56];
      }
    }

    /** Pads the message, gives the digest and forgets everything. */
    method Finish() returns (digest: seq<byte>)
      requires Valid()
      modifies this, pending
      ensures digest == Digest(old(message))
      ensures buf == Quad(0, 0, 0, 0) && bits0 == 0 && bits1 == 0 && pending[..] == Zeros(64)
    {
      hide Fold, Overwrite, Zeros, Le32, Output, Words, Padding, Whole, Waits, Counts;
      ghost var m := message;
      ghost var folded := Pad();
      ghost var padded := pending[..];
      assert pending[..56] == padded[..56];
      Store(56, Le32(bits0));
      Store(60, Le32(bits1));
      LastBlock(m, folded, padded, pending[..], bits1, bits0);
      TransformPending();
      digest := Output(buf);
      buf, bits0, bits1, message := Quad(0, 0, 0, 0), 0, 0, [];
      ghost var last := pending[..];
      Store(0, Zeros(64));
      StoredFirst(last, Zeros(64));
    }
  }

  lemma WholeIsAligned(n: nat)
    ensures Whole(n) % 64 == 0 && (Whole(n) + 64) % 64 == 0
  {
  }

  lemma StoredFirst(b: seq<byte>, x: seq<byte>)
    requires |x| <= |b|
    ensures Overwrite(b, 0, x)[..|x|] == x && (|x| == |b| ==> Overwrite(b, 0, x) == x)
  {
  }

  /** A message and the rest of it that waits for a block to be full. */
  predicate Waits(m: seq<byte>, b: seq<byte>) {
    |b| == 64 && b[..|m| % 64] == m[Whole(|m|)..]
  }

  lemma StaysPending(m: seq<byte>, data: seq<byte>, was: seq<byte>)
    requires Waits(m, was) && |m| % 64 + |data| < 64
    ensures var n := |m + data|;
            Whole(n) == Whole(|m|) && (m + data)[..Whole(n)] == m[..Whole(|m|)]
              && Waits(m + data, Overwrite(was, |m| % 64, data))
  {
    var t, w := |m| % 64, Whole(|m|);
    Remainder(w, t + |data|);
    var b := Overwrite(was, t, data);
    assert b[..t + |data|] == was[..t] + data;
    assert (m + data)[w..] == m[w..] + data;
  }

  lemma Remainder(w: nat, r: nat)
    requires w % 64 == 0 && r < 64
    ensures (w + r) % 64 == r && Whole(w + r) == w
  {
  }

  lemma FillsBlock(m: seq<byte>, data: seq<byte>, was: seq<byte>)
    requires Waits(m, was) && |m| % 64 > 0 && 64 - |m| % 64 <= |data|
    ensures var space := 64 - |m| % 64;
            && (|m| + space) % 64 == 0
            && Fold(Fold(INIT, m[..Whole(|m|)]), Overwrite(was, |m| % 64, data[..space]))
               == Fold(INIT, (m + data)[..|m| + space])
  {
    hide Fold;
    var t, w := |m| % 64, Whole(|m|);
    var b := Overwrite(was, t, data[..64 - t]);
    assert b == m[w..] + data[..64 - t];
    assert (m + data)[..|m| + 64 - t] == m[..w] + b;
    FoldConcat(INIT, m[..w], b);
  }

  lemma StartsBlock(m: seq<byte>, data: seq<byte>)
    requires |m| % 64 == 0
    ensures (m + data)[..|m| + 0] == m[..Whole(|m|)]
  {
  }

  lemma NextBlock(m: seq<byte>, data: seq<byte>, i: nat, b: seq<byte>)
    requires (|m| + i) % 64 == 0 && i + 64 <= |data| && |b| == 64
    ensures (|m| + (i + 64)) % 64 == 0
    ensures Fold(Fold(INIT, (m + data)[..|m| + i]), Overwrite(b, 0, data[i..i + 64]))
            == Fold(INIT, (m + data)[..|m| + (i + 64)])
  {
    hide Fold;
    var s := m + data;
    assert Overwrite(b, 0, data[i..i + 64]) == data[i..i + 64];
    assert s[..|m| + (i + 64)] == s[..|m| + i] + data[i..i + 64];
    FoldConcat(INIT, s[..|m| + i], data[i..i + 64]);
  }

  lemma RestIsPending(m: seq<byte>, data: seq<byte>, i: nat, b: seq<byte>)
    requires (|m| + i) % 64 == 0 && i <= |data| < i + 64 && |b| == 64
    ensures Whole(|m + data|) == |m| + i && Waits(m + data, Overwrite(b, 0, data[i..]))
  {
    Remainder(|m| + i, |data| - i);
    assert Overwrite(b, 0, data[i..])[..|data| - i] == data[i..];
    assert (m + data)[|m| + i..] == data[i..];
  }

  lemma ZerosConcat(a: nat, b: nat)
    ensures Zeros(a) + Zeros(b) == Zeros(a + b)
  {
  }

  /** The padding fits in the block. */
  lemma ShortPadding(m: seq<byte>, was: seq<byte>, b: seq<byte>)
    requires Waits(m, was) && |m| % 64 <= 55
    requires b == Overwrite(Overwrite(was, |m| % 64, [0x80]), |m| % 64 + 1, Zeros(55 - |m| % 64))
    ensures m[..Whole(|m|)] + b[..56] == m + Padding(|m|)
  {
    var t, w := |m| % 64, Whole(|m|);
    assert b[..56] == m[w..] + [0x80] + Zeros(55 - t);
    assert (119 - t) % 64 == 55 - t;
  }

  /** The padding fills the block and most of another one. */
  lemma LongPadding(m: seq<byte>, was: seq<byte>, b: seq<byte>)
    requires Waits(m, was) && |m| % 64 > 55
    requires b == Overwrite(Overwrite(was, |m| % 64, [0x80]), |m| % 64 + 1, Zeros(63 - |m| % 64))
    ensures m[..Whole(|m|)] + b + Zeros(56) == m + Padding(|m|)
    ensures Fold(INIT, m[..Whole(|m|)] + b) == Fold(Fold(INIT, m[..Whole(|m|)]), b)
  {
    hide Fold;
    var t, w := |m| % 64, Whole(|m|);
    assert b == m[w..] + [0x80] + Zeros(63 - t);
    assert (119 - t) % 64 == 119 - t;
    ZerosConcat(63 - t, 56);
    assert m[..w] + b + Zeros(56) == m + [0x80] + (Zeros(63 - t) + Zeros(56));
    FoldConcat(INIT, m[..w], b);
  }

  lemma LastBlock(m: seq<byte>, folded: seq<byte>, b: seq<byte>, last: seq<byte>, b1: nat, b0: nat)
    requires |b| == 64 && folded + b[..56] == m + Padding(|m|) && |folded| % 64 == 0 && Counts(b1, b0, |m|)
    requires last == Overwrite(Overwrite(b, 56, Le32(b0)), 60, Le32(b1))
    ensures Fold(Fold(INIT, folded), last) == Fold(INIT, Padded(m))
  {
    hide Fold, Le32, Padding;
    var n := 8 * |m| % U64;
    assert b0 == n % U32 && b1 == n / U32;
    assert last == b[..56] + (Le32(b0) + Le32(b1));
    ConcatAssoc(folded, b[..56], Le64(n));
    FoldConcat(INIT, folded, last);
  }
}
