/** Bytes, C strings and big-endian words, shared by every component. */
module Bytes {

  type byte = x: int | 0 <= x < 0x100

  const U32: nat := 0x1_0000_0000

  datatype Option<T> = Some(v: T) | None

  function Zeros(n: nat): (z: seq<byte>)
    ensures |z| == n && forall i :: 0 <= i < n ==> z[i] == 0
  {
    seq(n, _ => 0)
  }

  /** `b` with the bytes `x` written over it from position `i` on. */
  function Overwrite(b: seq<byte>, i: nat, x: seq<byte>): (r: seq<byte>)
    requires i + |x| <= |b|
    ensures |r| == |b|
  {
    b[..i] + x + b[i + |x|..]
  }

  /** The text a C string function sees in a byte array: everything before the first NUL. */
  function CStr(s: seq<byte>): (r: seq<byte>)
    ensures NulFree(r) && r <= s
    ensures NulFree(s) ==> r == s
    ensures |r| < |s| ==> s[|r|] == 0
  {
    if s == [] || s[0] == 0 then []
    else
      assert NulFree(s) ==> NulFree(s[1..]);
      [s[0]] + CStr(s[1..])
  }

  predicate NulFree(s: seq<byte>) {
    forall i :: 0 <= i < |s| ==> s[i] != 0
  }

  lemma NulFreeBoth(x: seq<byte>, y: seq<byte>)
    ensures NulFree(x + y) <==> NulFree(x) && NulFree(y)
  {
    assert (forall i :: 0 <= i < |y| ==> (x + y)[|x| + i] == y[i]);
    if NulFree(x + y) {
      assert forall i :: 0 <= i < |x| ==> (x + y)[i] == x[i];
    }
  }

  /** Stores the low 32 bits of `n`, most significant byte first. */
  function Be32(n: nat): (b: seq<byte>)
    ensures |b| == 4
  {
    [n / 0x100_0000 % 0x100, n / 0x1_0000 % 0x100, n / 0x100 % 0x100, n % 0x100]
  }

  function FromBe32(b: seq<byte>): (n: nat)
    requires |b| == 4
    ensures n < U32
  {
    var b0: int, b1: int, b2: int, b3: int := b[0], b[1], b[2], b[3];
    b0 * 0x100_0000 + b1 * 0x1_0000 + b2 * 0x100 + b3
  }

  lemma FromBe32OfBe32(n: nat)
    ensures FromBe32(Be32(n)) == n % U32
  {
    var q := n / 0x100;
    var r := q / 0x100;
    var s := r / 0x100;
    assert n / 0x1_0000 == r && n / 0x100_0000 == s;
    assert n == s * 0x100_0000 + r % 0x100 * 0x1_0000 + q % 0x100 * 0x100 + n % 0x100;
    assert n == (s / 0x100) * U32 + FromBe32(Be32(n));
  }

  lemma Be32OfFromBe32(b: seq<byte>)
    requires |b| == 4
    ensures Be32(FromBe32(b)) == b
  {
    var n := FromBe32(b);
    var b0: int, b1: int, b2: int := b[0], b[1], b[2];
    assert n / 0x100 == b0 * 0x1_0000 + b1 * 0x100 + b2;
    assert n / 0x1_0000 == b0 * 0x100 + b1;
    assert n / 0x100_0000 == b0;
  }

  /** The bytes of a text in ASCII. */
  function Ascii(s: string): (b: seq<byte>)
    requires forall i :: 0 <= i < |s| ==> s[i] as int < 0x80
    ensures |b| == |s| && forall i :: 0 <= i < |s| ==> b[i] == s[i] as int
  {
    seq(|s|, i requires 0 <= i < |s| => s[i] as int)
  }

  /** The most significant byte comes first. */
  lemma Be32Layout(n: nat)
    requires n < U32
    ensures var b := Be32(n);
            b[0] as int * 0x100_0000 + b[1] as int * 0x1_0000 + b[2] as int * 0x100 + b[3] as int == n
  {
    FromBe32OfBe32(n);
  }

  lemma SplitConcat<T>(x: seq<T>, y: seq<T>)
    ensures (x + y)[..|x|] == x && (x + y)[|x|..] == y
  {
  }

  lemma ConcatAssoc<T>(x: seq<T>, y: seq<T>, z: seq<T>)
    ensures (x + y) + z == x + (y + z)
  {
  }

  lemma ConcatEmpty<T>(x: seq<T>)
    ensures [] + x == x == x + []
  {
  }

  lemma PrefixAt<T>(s: seq<T>, i: nat, t: seq<T>)
    requires i + |t| <= |s| && s[i..i + |t|] == t
    ensures t <= s[i..]
  {
    assert s[i..][..|t|] == s[i..i + |t|];
  }
}
