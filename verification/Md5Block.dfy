/**
 The MD5 block operation: as section 3.4 of RFC 1321 defines it, with the four functions of
 section 3.4 and steps that take turns at four registers, and as the code unrolls it.
 */
module Md5Block {

  datatype Quad = Quad(a: bv32, b: bv32, c: bv32, d: bv32)

  function Sum(x: bv32, y: bv32): bv32 {
    x + y
  }

  function RotateLeft(w: bv32, s: nat): bv32
    requires 0 < s < 32
  {
    (w << s) | (w >> (32 - s))
  }

  // ---- the definition

  function F(x: bv32, y: bv32, z: bv32): bv32 {
    (x & y) | (!x & z)
  }

  function G(x: bv32, y: bv32, z: bv32): bv32 {
    (x & z) | (y & !z)
  }

  function H(x: bv32, y: bv32, z: bv32): bv32 {
    x ^ y ^ z
  }

  function I(x: bv32, y: bv32, z: bv32): bv32 {
    y ^ (x | !z)
  }

  datatype Four<T> = Sines(t0: T, t1: T, t2: T, t3: T)

  /** The integer parts of 4294967296 times the sines of 4r + 1 to 4r + 4. */
  function SineRow(r: nat): Four<bv32> {
    if r == 0 then Sines(0xd76aa478, 0xe8c7b756, 0x242070db, 0xc1bdceee)
    else if r == 1 then Sines(0xf57c0faf, 0x4787c62a, 0xa8304613, 0xfd469501)
    else if r == 2 then Sines(0x698098d8, 0x8b44f7af, 0xffff5bb1, 0x895cd7be)
    else if r == 3 then Sines(0x6b901122, 0xfd987193, 0xa679438e, 0x49b40821)
    else if r == 4 then Sines(0xf61e2562, 0xc040b340, 0x265e5a51, 0xe9b6c7aa)
    else if r == 5 then Sines(0xd62f105d, 0x02441453, 0xd8a1e681, 0xe7d3fbc8)
    else if r == 6 then Sines(0x21e1cde6, 0xc33707d6, 0xf4d50d87, 0x455a14ed)
    else if r == 7 then Sines(0xa9e3e905, 0xfcefa3f8, 0x676f02d9, 0x8d2a4c8a)
    else if r == 8 then Sines(0xfffa3942, 0x8771f681, 0x6d9d6122, 0xfde5380c)
    else if r == 9 then Sines(0xa4beea44, 0x4bdecfa9, 0xf6bb4b60, 0xbebfbc70)
    else if r == 10 then Sines(0x289b7ec6, 0xeaa127fa, 0xd4ef3085, 0x04881d05)
    else if r == 11 then Sines(0xd9d4d039, 0xe6db99e5, 0x1fa27cf8, 0xc4ac5665)
    else if r == 12 then Sines(0xf4292244, 0x432aff97, 0xab9423a7, 0xfc93a039)
    else if r == 13 then Sines(0x655b59c3, 0x8f0ccc92, 0xffeff47d, 0x85845dd1)
    else if r == 14 then Sines(0x6fa87e4f, 0xfe2ce6e0, 0xa3014314, 0x4e0811a1)
    else Sines(0xf7537e82, 0xbd3af235, 0x2ad7d2bb, 0xeb86d391)
  }

  function SineOf(i: nat): bv32 {
    var row, j := SineRow(i / 4), i % 4;
    if j == 0 then row.t0 else if j == 1 then row.t1 else if j == 2 then row.t2 else row.t3
  }

  /** Which word of the block a step takes. */
  function WordOf(i: nat): (k: nat)
    ensures k < 16
  {
    if i < 16 then i else if i < 32 then (5 * i + 1) % 16 else if i < 48 then (3 * i + 5) % 16 else 7 * i % 16
  }

  function ShiftOf(i: nat): (s: nat)
    ensures 0 < s < 32
  {
    var j := i % 4;
    if i < 16 then [7, 12, 17, 22][j] else if i < 32 then [5, 9, 14, 20][j] else if i < 48 then [4, 11, 16, 23][j]
      else [6, 10, 15, 21][j]
  }

  function Mix(i: nat, x: bv32, y: bv32, z: bv32): bv32 {
    if i < 16 then F(x, y, z) else if i < 32 then G(x, y, z) else if i < 48 then H(x, y, z) else I(x, y, z)
  }

  /** One step, after which the registers change their places. */
  function Operate(q: Quad, x: seq<bv32>, i: nat): Quad
    requires |x| == 16 && i < 64
  {
    var w := Sum(q.a, Sum(Mix(i, q.b, q.c, q.d), Sum(x[WordOf(i)], SineOf(i))));
    Quad(q.d, Sum(RotateLeft(w, ShiftOf(i)), q.b), q.b, q.c)
  }

  function Steps(q: Quad, x: seq<bv32>, n: nat): Quad
    requires |x| == 16 && n <= 64
  {
    if n == 0 then q else Operate(Steps(q, x, n - 1), x, n - 1)
  }

  function AddTo(q: Quad, r: Quad): Quad {
    Quad(Sum(q.a, r.a), Sum(q.b, r.b), Sum(q.c, r.c), Sum(q.d, r.d))
  }

  /** What a block of 16 words makes of the registers. */
  function Block(q: Quad, x: seq<bv32>): Quad
    requires |x| == 16
  {
    AddTo(q, Steps(q, x, 64))
  }

  // ---- the code

  function F1(x: bv32, y: bv32, z: bv32): bv32 {
    z ^ (x & (y ^ z))
  }

  function F2(x: bv32, y: bv32, z: bv32): bv32 {
    F1(z, x, y)
  }

  function F3(x: bv32, y: bv32, z: bv32): bv32 {
    x ^ y ^ z
  }

  function F4(x: bv32, y: bv32, z: bv32): bv32 {
    y ^ (x | !z)
  }

  /** The function of each round, as the code computes it. */
  function F1To4(round: nat, x: bv32, y: bv32, z: bv32): bv32 {
    if round == 0 then F1(x, y, z) else if round == 1 then F2(x, y, z) else if round == 2 then F3(x, y, z)
      else F4(x, y, z)
  }

  lemma Choice(x: bv32, y: bv32, z: bv32)
    ensures z ^ (x & (y ^ z)) == (x & y) | (!x & z)
  {
  }

  lemma FirstFunction(x: bv32, y: bv32, z: bv32)
    ensures F1(x, y, z) == F(x, y, z)
  {
    Choice(x, y, z);
  }

  lemma SecondFunction(x: bv32, y: bv32, z: bv32)
    ensures F2(x, y, z) == G(x, y, z)
  {
    hide F, F1;
    FirstFunction(z, x, y);
    SwappedChoice(x, y, z);
  }

  lemma SwappedChoice(x: bv32, y: bv32, z: bv32)
    ensures F(z, x, y) == G(x, y, z)
  {
  }

  lemma OtherFunctions(x: bv32, y: bv32, z: bv32)
    ensures F3(x, y, z) == H(x, y, z) && F4(x, y, z) == I(x, y, z)
  {
  }

  /** What the code computes with fewer operations is the same. */
  lemma RoundFunctions(round: nat, i: nat, x: bv32, y: bv32, z: bv32)
    requires round < 4 && 16 * round <= i < 16 * round + 16
    ensures F1To4(round, x, y, z) == Mix(i, x, y, z)
  {
    hide F, G, H, I, F1, F2, F3, F4;
    FirstFunction(x, y, z);
    SecondFunction(x, y, z);
    OtherFunctions(x, y, z);
  }

  function Shift(round: nat, j: nat): (s: nat)
    requires round < 4 && j < 4
    ensures 0 < s < 32
  {
    [[7, 12, 17, 22], [5, 9, 14, 20], [4, 11, 16, 23], [6, 10, 15, 21]][round][j]
  }

  /** One line of the unrolled code: the new value of register `w`. */
  function Step(round: nat, w: bv32, x: bv32, y: bv32, z: bv32, data: bv32, s: nat): bv32
    requires 0 < s < 32
  {
    Sum(RotateLeft(Sum(w, Sum(F1To4(round, x, y, z), data)), s), x)
  }

  lemma StepIsOperation(round: nat, q: Quad, x: seq<bv32>, i: nat)
    requires round < 4 && 16 * round <= i < 16 * round + 16 && |x| == 16
    ensures Operate(q, x, i) == Quad(q.d, Step(round, q.a, q.b, q.c, q.d, DataOf(x, i), ShiftOf(i)), q.b, q.c)
  {
    hide F1To4, Mix, RotateLeft, WordOf, ShiftOf, SineOf, Sum;
    RoundFunctions(round, i, q.b, q.c, q.d);
  }

  /** The data of step `4r + j`. */
  function DataOf(x: seq<bv32>, i: nat): bv32
    requires |x| == 16
  {
    Sum(x[WordOf(i)], SineOf(i))
  }

  lemma RowData(x: seq<bv32>, r: nat)
    requires |x| == 16
    ensures DataOf(x, 4 * r) == Sum(x[WordOf(4 * r)], SineRow(r).t0)
            && DataOf(x, 4 * r + 1) == Sum(x[WordOf(4 * r + 1)], SineRow(r).t1)
    ensures DataOf(x, 4 * r + 2) == Sum(x[WordOf(4 * r + 2)], SineRow(r).t2)
            && DataOf(x, 4 * r + 3) == Sum(x[WordOf(4 * r + 3)], SineRow(r).t3)
  {
    hide SineRow, WordOf, Sum;
  }

  /** Four steps, one for each register. */
  method FourSteps(round: nat, q: Quad, d0: bv32, d1: bv32, d2: bv32, d3: bv32, ghost x: seq<bv32>, ghost r: nat,
                   ghost p: Quad)
    returns (q': Quad)
    requires round < 4 && |x| == 16 && 4 * round <= r < 4 * round + 4 && q == Steps(p, x, 4 * r)
    requires d0 == DataOf(x, 4 * r) && d1 == DataOf(x, 4 * r + 1) && d2 == DataOf(x, 4 * r + 2)
             && d3 == DataOf(x, 4 * r + 3)
    ensures q' == Steps(p, x, 4 * r + 4)
  {
    hide Step, Operate, DataOf, ShiftOf, Shift, Steps;
    ghost var i := 4 * r;
    ShiftsOf(round, i);
    StepsOn(p, x, i);
    var a, b, c, d := q.a, q.b, q.c, q.d;
    StepIsOperation(round, q, x, i);
    a := Step(round, a, b, c, d, d0, Shift(round, 0));
    StepIsOperation(round, Quad(d, a, b, c), x, i + 1);
    d := Step(round, d, a, b, c, d1, Shift(round, 1));
    StepIsOperation(round, Quad(c, d, a, b), x, i + 2);
    c := Step(round, c, d, a, b, d2, Shift(round, 2));
    StepIsOperation(round, Quad(b, c, d, a), x, i + 3);
    b := Step(round, b, c, d, a, d3, Shift(round, 3));
    q' := Quad(a, b, c, d);
  }

  lemma ShiftsOf(round: nat, i: nat)
    requires round < 4 && i % 4 == 0 && 16 * round <= i < 16 * round + 16
    ensures forall j :: 0 <= j < 4 ==> ShiftOf(i + j) == Shift(round, j)
  {
  }

  lemma StepsOn(p: Quad, x: seq<bv32>, i: nat)
    requires |x| == 16 && i + 4 <= 64
    ensures Steps(p, x, i + 4) == Operate(Operate(Operate(Operate(Steps(p, x, i), x, i), x, i + 1), x, i + 2), x, i + 3)
  {
    hide Operate;
    assert Steps(p, x, i + 2) == Operate(Operate(Steps(p, x, i), x, i), x, i + 1);
  }

  // The four rounds, as they are unrolled, in halves.

  method Round1Front(q0: Quad, x: seq<bv32>, ghost buf: Quad) returns (q: Quad)
    requires |x| == 16 && q0 == Steps(buf, x, 0)
    ensures q == Steps(buf, x, 8)
  {
    hide Steps, Sum, DataOf, SineOf;
    q := q0;
    RowData(x, 0);
    q := FourSteps(0, q, Sum(x[0], 0xd76aa478), Sum(x[1], 0xe8c7b756), Sum(x[2], 0x242070db), Sum(x[3], 0xc1bdceee), x,
      0, buf);
    RowData(x, 1);
    q := FourSteps(0, q, Sum(x[4], 0xf57c0faf), Sum(x[5], 0x4787c62a), Sum(x[6], 0xa8304613), Sum(x[7], 0xfd469501), x,
      1, buf);
  }

  method Round1Back(q0: Quad, x: seq<bv32>, ghost buf: Quad) returns (q: Quad)
    requires |x| == 16 && q0 == Steps(buf, x, 8)
    ensures q == Steps(buf, x, 16)
  {
    hide Steps, Sum, DataOf, SineOf;
    q := q0;
    RowData(x, 2);
    q := FourSteps(0, q, Sum(x[8], 0x698098d8), Sum(x[9], 0x8b44f7af), Sum(x[10], 0xffff5bb1), Sum(x[11], 0x895cd7be),
      x, 2, buf);
    RowData(x, 3);
    q := FourSteps(0, q, Sum(x[12], 0x6b901122), Sum(x[13], 0xfd987193), Sum(x[14], 0xa679438e),
      Sum(x[15], 0x49b40821), x, 3, buf);
  }

  method Round2Front(q0: Quad, x: seq<bv32>, ghost buf: Quad) returns (q: Quad)
    requires |x| == 16 && q0 == Steps(buf, x, 16)
    ensures q == Steps(buf, x, 24)
  {
    hide Steps, Sum, DataOf, SineOf;
    q := q0;
    RowData(x, 4);
    q := FourSteps(1, q, Sum(x[1], 0xf61e2562), Sum(x[6], 0xc040b340), Sum(x[11], 0x265e5a51), Sum(x[0], 0xe9b6c7aa),
      x, 4, buf);
    RowData(x, 5);
    q := FourSteps(1, q, Sum(x[5], 0xd62f105d), Sum(x[10], 0x02441453), Sum(x[15], 0xd8a1e681), Sum(x[4], 0xe7d3fbc8),
      x, 5, buf);
  }

  method Round2Back(q0: Quad, x: seq<bv32>, ghost buf: Quad) returns (q: Quad)
    requires |x| == 16 && q0 == Steps(buf, x, 24)
    ensures q == Steps(buf, x, 32)
  {
    hide Steps, Sum, DataOf, SineOf;
    q := q0;
    RowData(x, 6);
    q := FourSteps(1, q, Sum(x[9], 0x21e1cde6), Sum(x[14], 0xc33707d6), Sum(x[3], 0xf4d50d87), Sum(x[8], 0x455a14ed),
      x, 6, buf);
    RowData(x, 7);
    q := FourSteps(1, q, Sum(x[13], 0xa9e3e905), Sum(x[2], 0xfcefa3f8), Sum(x[7], 0x676f02d9), Sum(x[12], 0x8d2a4c8a),
      x, 7, buf);
  }

  method Round3Front(q0: Quad, x: seq<bv32>, ghost buf: Quad) returns (q: Quad)
    requires |x| == 16 && q0 == Steps(buf, x, 32)
    ensures q == Steps(buf, x, 40)
  {
    hide Steps, Sum, DataOf, SineOf;
    q := q0;
    RowData(x, 8);
    q := FourSteps(2, q, Sum(x[5], 0xfffa3942), Sum(x[8], 0x8771f681), Sum(x[11], 0x6d9d6122), Sum(x[14], 0xfde5380c),
      x, 8, buf);
    RowData(x, 9);
    q := FourSteps(2, q, Sum(x[1], 0xa4beea44), Sum(x[4], 0x4bdecfa9), Sum(x[7], 0xf6bb4b60), Sum(x[10], 0xbebfbc70),
      x, 9, buf);
  }

  method Round3Back(q0: Quad, x: seq<bv32>, ghost buf: Quad) returns (q: Quad)
    requires |x| == 16 && q0 == Steps(buf, x, 40)
    ensures q == Steps(buf, x, 48)
  {
    hide Steps, Sum, DataOf, SineOf;
    q := q0;
    RowData(x, 10);
    q := FourSteps(2, q, Sum(x[13], 0x289b7ec6), Sum(x[0], 0xeaa127fa), Sum(x[3], 0xd4ef3085), Sum(x[6], 0x04881d05),
      x, 10, buf);
    RowData(x, 11);
    q := FourSteps(2, q, Sum(x[9], 0xd9d4d039), Sum(x[12], 0xe6db99e5), Sum(x[15], 0x1fa27cf8), Sum(x[2], 0xc4ac5665),
      x, 11, buf);
  }

  method Round4Front(q0: Quad, x: seq<bv32>, ghost buf: Quad) returns (q: Quad)
    requires |x| == 16 && q0 == Steps(buf, x, 48)
    ensures q == Steps(buf, x, 56)
  {
    hide Steps, Sum, DataOf, SineOf;
    q := q0;
    RowData(x, 12);
    q := FourSteps(3, q, Sum(x[0], 0xf4292244), Sum(x[7], 0x432aff97), Sum(x[14], 0xab9423a7), Sum(x[5], 0xfc93a039),
      x, 12, buf);
    RowData(x, 13);
    q := FourSteps(3, q, Sum(x[12], 0x655b59c3), Sum(x[3], 0x8f0ccc92), Sum(x[10], 0xffeff47d), Sum(x[1], 0x85845dd1),
      x, 13, buf);
  }

  method Round4Back(q0: Quad, x: seq<bv32>, ghost buf: Quad) returns (q: Quad)
    requires |x| == 16 && q0 == Steps(buf, x, 56)
    ensures q == Steps(buf, x, 64)
  {
    hide Steps, Sum, DataOf, SineOf;
    q := q0;
    RowData(x, 14);
    q := FourSteps(3, q, Sum(x[8], 0x6fa87e4f), Sum(x[15], 0xfe2ce6e0), Sum(x[6], 0xa3014314), Sum(x[13], 0x4e0811a1),
      x, 14, buf);
    RowData(x, 15);
    q := FourSteps(3, q, Sum(x[4], 0xf7537e82), Sum(x[11], 0xbd3af235), Sum(x[2], 0x2ad7d2bb), Sum(x[9], 0xeb86d391),
      x, 15, buf);
  }

  /** The whole block operation: four rounds, and the old registers added. */
  method Transform(buf: Quad, x: seq<bv32>) returns (r: Quad)
    requires |x| == 16
    ensures r == Block(buf, x)
  {
    hide Sum, Operate;
    var q := Round1Front(buf, x, buf);
    q := Round1Back(q, x, buf);
    q := Round2Front(q, x, buf);
    q := Round2Back(q, x, buf);
    q := Round3Front(q, x, buf);
    q := Round3Back(q, x, buf);
    q := Round4Front(q, x, buf);
    q := Round4Back(q, x, buf);
    r := AddTo(buf, q);
  }
}
