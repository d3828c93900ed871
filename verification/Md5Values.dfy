/**
 A test vector of section A.5 of RFC 1321, with every step of its two blocks: the message of all
 capital letters, all small letters and all digits.
 */
module Md5Values {
  import opened Bytes
  import opened Md5Block
  import opened Md5

  /** One step, of which all parts are known but the rotation. */
  lemma OneStep(q: Quad, x: seq<bv32>, i: nat, m: bv32, w: bv32, t: bv32, s: bv32, n: nat)
    requires |x| == 16 && i < 64 && Mix(i, q.b, q.c, q.d) == m && x[WordOf(i)] == w && SineOf(i) == t
    requires s == Sum(q.a, Sum(m, Sum(w, t))) && ShiftOf(i) == n
    ensures Operate(q, x, i) == Quad(q.d, Sum(RotateLeft(s, n), q.b), q.b, q.c)
  {
    hide Mix, WordOf, Sum, SineOf, RotateLeft, ShiftOf;
  }

  lemma Turns(w: bv32)
    ensures RotateLeft(w, 7) == (w << 7) | (w >> 25) && RotateLeft(w, 12) == (w << 12) | (w >> 20)
    ensures RotateLeft(w, 17) == (w << 17) | (w >> 15) && RotateLeft(w, 22) == (w << 22) | (w >> 10)
    ensures RotateLeft(w, 5) == (w << 5) | (w >> 27) && RotateLeft(w, 9) == (w << 9) | (w >> 23)
    ensures RotateLeft(w, 14) == (w << 14) | (w >> 18) && RotateLeft(w, 20) == (w << 20) | (w >> 12)
    ensures RotateLeft(w, 4) == (w << 4) | (w >> 28) && RotateLeft(w, 11) == (w << 11) | (w >> 21)
    ensures RotateLeft(w, 16) == (w << 16) | (w >> 16) && RotateLeft(w, 23) == (w << 23) | (w >> 9)
    ensures RotateLeft(w, 6) == (w << 6) | (w >> 26) && RotateLeft(w, 10) == (w << 10) | (w >> 22)
    ensures RotateLeft(w, 15) == (w << 15) | (w >> 17) && RotateLeft(w, 21) == (w << 21) | (w >> 11)
  {
  }

  lemma By7(q: Quad, x: seq<bv32>, i: nat, m: bv32, w: bv32, t: bv32, s: bv32)
    requires |x| == 16 && 0 <= i < 16 && Mix(i, q.b, q.c, q.d) == m && x[WordOf(i)] == w && SineOf(i) == t
    requires s == Sum(q.a, Sum(m, Sum(w, t))) && ShiftOf(i) == 7
    ensures Operate(q, x, i) == Quad(q.d, Sum((s << 7) | (s >> 25), q.b), q.b, q.c)
  {
    hide RotateLeft, ShiftOf, SineOf, WordOf, Mix, Sum;
    Turns(s);
    OneStep(q, x, i, m, w, t, s, 7);
  }

  lemma By12(q: Quad, x: seq<bv32>, i: nat, m: bv32, w: bv32, t: bv32, s: bv32)
    requires |x| == 16 && 0 <= i < 16 && Mix(i, q.b, q.c, q.d) == m && x[WordOf(i)] == w && SineOf(i) == t
    requires s == Sum(q.a, Sum(m, Sum(w, t))) && ShiftOf(i) == 12
    ensures Operate(q, x, i) == Quad(q.d, Sum((s << 12) | (s >> 20), q.b), q.b, q.c)
  {
    hide RotateLeft, ShiftOf, SineOf, WordOf, Mix, Sum;
    Turns(s);
    OneStep(q, x, i, m, w, t, s, 12);
  }

  lemma By17(q: Quad, x: seq<bv32>, i: nat, m: bv32, w: bv32, t: bv32, s: bv32)
    requires |x| == 16 && 0 <= i < 16 && Mix(i, q.b, q.c, q.d) == m && x[WordOf(i)] == w && SineOf(i) == t
    requires s == Sum(q.a, Sum(m, Sum(w, t))) && ShiftOf(i) == 17
    ensures Operate(q, x, i) == Quad(q.d, Sum((s << 17) | (s >> 15), q.b), q.b, q.c)
  {
    hide RotateLeft, ShiftOf, SineOf, WordOf, Mix, Sum;
    Turns(s);
    OneStep(q, x, i, m, w, t, s, 17);
  }

  lemma By22(q: Quad, x: seq<bv32>, i: nat, m: bv32, w: bv32, t: bv32, s: bv32)
    requires |x| == 16 && 0 <= i < 16 && Mix(i, q.b, q.c, q.d) == m && x[WordOf(i)] == w && SineOf(i) == t
    requires s == Sum(q.a, Sum(m, Sum(w, t))) && ShiftOf(i) == 22
    ensures Operate(q, x, i) == Quad(q.d, Sum((s << 22) | (s >> 10), q.b), q.b, q.c)
  {
    hide RotateLeft, ShiftOf, SineOf, WordOf, Mix, Sum;
    Turns(s);
    OneStep(q, x, i, m, w, t, s, 22);
  }

  lemma By5(q: Quad, x: seq<bv32>, i: nat, m: bv32, w: bv32, t: bv32, s: bv32)
    requires |x| == 16 && 16 <= i < 32 && Mix(i, q.b, q.c, q.d) == m && x[WordOf(i)] == w && SineOf(i) == t
    requires s == Sum(q.a, Sum(m, Sum(w, t))) && ShiftOf(i) == 5
    ensures Operate(q, x, i) == Quad(q.d, Sum((s << 5) | (s >> 27), q.b), q.b, q.c)
  {
    hide RotateLeft, ShiftOf, SineOf, WordOf, Mix, Sum;
    Turns(s);
    OneStep(q, x, i, m, w, t, s, 5);
  }

  lemma By9(q: Quad, x: seq<bv32>, i: nat, m: bv32, w: bv32, t: bv32, s: bv32)
    requires |x| == 16 && 16 <= i < 32 && Mix(i, q.b, q.c, q.d) == m && x[WordOf(i)] == w && SineOf(i) == t
    requires s == Sum(q.a, Sum(m, Sum(w, t))) && ShiftOf(i) == 9
    ensures Operate(q, x, i) == Quad(q.d, Sum((s << 9) | (s >> 23), q.b), q.b, q.c)
  {
    hide RotateLeft, ShiftOf, SineOf, WordOf, Mix, Sum;
    Turns(s);
    OneStep(q, x, i, m, w, t, s, 9);
  }

  lemma By14(q: Quad, x: seq<bv32>, i: nat, m: bv32, w: bv32, t: bv32, s: bv32)
    requires |x| == 16 && 16 <= i < 32 && Mix(i, q.b, q.c, q.d) == m && x[WordOf(i)] == w && SineOf(i) == t
    requires s == Sum(q.a, Sum(m, Sum(w, t))) && ShiftOf(i) == 14
    ensures Operate(q, x, i) == Quad(q.d, Sum((s << 14) | (s >> 18), q.b), q.b, q.c)
  {
    hide RotateLeft, ShiftOf, SineOf, WordOf, Mix, Sum;
    Turns(s);
    OneStep(q, x, i, m, w, t, s, 14);
  }

  lemma By20(q: Quad, x: seq<bv32>, i: nat, m: bv32, w: bv32, t: bv32, s: bv32)
    requires |x| == 16 && 16 <= i < 32 && Mix(i, q.b, q.c, q.d) == m && x[WordOf(i)] == w && SineOf(i) == t
    requires s == Sum(q.a, Sum(m, Sum(w, t))) && ShiftOf(i) == 20
    ensures Operate(q, x, i) == Quad(q.d, Sum((s << 20) | (s >> 12), q.b), q.b, q.c)
  {
    hide RotateLeft, ShiftOf, SineOf, WordOf, Mix, Sum;
    Turns(s);
    OneStep(q, x, i, m, w, t, s, 20);
  }

  lemma By4(q: Quad, x: seq<bv32>, i: nat, m: bv32, w: bv32, t: bv32, s: bv32)
    requires |x| == 16 && 32 <= i < 48 && Mix(i, q.b, q.c, q.d) == m && x[WordOf(i)] == w && SineOf(i) == t
    requires s == Sum(q.a, Sum(m, Sum(w, t))) && ShiftOf(i) == 4
    ensures Operate(q, x, i) == Quad(q.d, Sum((s << 4) | (s >> 28), q.b), q.b, q.c)
  {
    hide RotateLeft, ShiftOf, SineOf, WordOf, Mix, Sum;
    Turns(s);
    OneStep(q, x, i, m, w, t, s, 4);
  }

  lemma By11(q: Quad, x: seq<bv32>, i: nat, m: bv32, w: bv32, t: bv32, s: bv32)
    requires |x| == 16 && 32 <= i < 48 && Mix(i, q.b, q.c, q.d) == m && x[WordOf(i)] == w && SineOf(i) == t
    requires s == Sum(q.a, Sum(m, Sum(w, t))) && ShiftOf(i) == 11
    ensures Operate(q, x, i) == Quad(q.d, Sum((s << 11) | (s >> 21), q.b), q.b, q.c)
  {
    hide RotateLeft, ShiftOf, SineOf, WordOf, Mix, Sum;
    Turns(s);
    OneStep(q, x, i, m, w, t, s, 11);
  }

  lemma By16(q: Quad, x: seq<bv32>, i: nat, m: bv32, w: bv32, t: bv32, s: bv32)
    requires |x| == 16 && 32 <= i < 48 && Mix(i, q.b, q.c, q.d) == m && x[WordOf(i)] == w && SineOf(i) == t
    requires s == Sum(q.a, Sum(m, Sum(w, t))) && ShiftOf(i) == 16
    ensures Operate(q, x, i) == Quad(q.d, Sum((s << 16) | (s >> 16), q.b), q.b, q.c)
  {
    hide RotateLeft, ShiftOf, SineOf, WordOf, Mix, Sum;
    Turns(s);
    OneStep(q, x, i, m, w, t, s, 16);
  }

  lemma By23(q: Quad, x: seq<bv32>, i: nat, m: bv32, w: bv32, t: bv32, s: bv32)
    requires |x| == 16 && 32 <= i < 48 && Mix(i, q.b, q.c, q.d) == m && x[WordOf(i)] == w && SineOf(i) == t
    requires s == Sum(q.a, Sum(m, Sum(w, t))) && ShiftOf(i) == 23
    ensures Operate(q, x, i) == Quad(q.d, Sum((s << 23) | (s >> 9), q.b), q.b, q.c)
  {
    hide RotateLeft, ShiftOf, SineOf, WordOf, Mix, Sum;
    Turns(s);
    OneStep(q, x, i, m, w, t, s, 23);
  }

  lemma By6(q: Quad, x: seq<bv32>, i: nat, m: bv32, w: bv32, t: bv32, s: bv32)
    requires |x| == 16 && 48 <= i < 64 && Mix(i, q.b, q.c, q.d) == m && x[WordOf(i)] == w && SineOf(i) == t
    requires s == Sum(q.a, Sum(m, Sum(w, t))) && ShiftOf(i) == 6
    ensures Operate(q, x, i) == Quad(q.d, Sum((s << 6) | (s >> 26), q.b), q.b, q.c)
  {
    hide RotateLeft, ShiftOf, SineOf, WordOf, Mix, Sum;
    Turns(s);
    OneStep(q, x, i, m, w, t, s, 6);
  }

  lemma By10(q: Quad, x: seq<bv32>, i: nat, m: bv32, w: bv32, t: bv32, s: bv32)
    requires |x| == 16 && 48 <= i < 64 && Mix(i, q.b, q.c, q.d) == m && x[WordOf(i)] == w && SineOf(i) == t
    requires s == Sum(q.a, Sum(m, Sum(w, t))) && ShiftOf(i) == 10
    ensures Operate(q, x, i) == Quad(q.d, Sum((s << 10) | (s >> 22), q.b), q.b, q.c)
  {
    hide RotateLeft, ShiftOf, SineOf, WordOf, Mix, Sum;
    Turns(s);
    OneStep(q, x, i, m, w, t, s, 10);
  }

  lemma By15(q: Quad, x: seq<bv32>, i: nat, m: bv32, w: bv32, t: bv32, s: bv32)
    requires |x| == 16 && 48 <= i < 64 && Mix(i, q.b, q.c, q.d) == m && x[WordOf(i)] == w && SineOf(i) == t
    requires s == Sum(q.a, Sum(m, Sum(w, t))) && ShiftOf(i) == 15
    ensures Operate(q, x, i) == Quad(q.d, Sum((s << 15) | (s >> 17), q.b), q.b, q.c)
  {
    hide RotateLeft, ShiftOf, SineOf, WordOf, Mix, Sum;
    Turns(s);
    OneStep(q, x, i, m, w, t, s, 15);
  }

  lemma By21(q: Quad, x: seq<bv32>, i: nat, m: bv32, w: bv32, t: bv32, s: bv32)
    requires |x| == 16 && 48 <= i < 64 && Mix(i, q.b, q.c, q.d) == m && x[WordOf(i)] == w && SineOf(i) == t
    requires s == Sum(q.a, Sum(m, Sum(w, t))) && ShiftOf(i) == 21
    ensures Operate(q, x, i) == Quad(q.d, Sum((s << 21) | (s >> 11), q.b), q.b, q.c)
  {
    hide RotateLeft, ShiftOf, SineOf, WordOf, Mix, Sum;
    Turns(s);
    OneStep(q, x, i, m, w, t, s, 21);
  }

  function Row(q: Quad, x: seq<bv32>, i: nat): Quad
    requires |x| == 16 && i + 4 <= 64
  {
    Operate(Operate(Operate(Operate(q, x, i), x, i + 1), x, i + 2), x, i + 3)
  }

  lemma NoSteps(q: Quad, x: seq<bv32>)
    requires |x| == 16
    ensures Steps(q, x, 0) == q
  {
  }

  const X: seq<bv32> := [0x44434241, 0x48474645, 0x4c4b4a49, 0x504f4e4d, 0x54535251, 0x58575655, 0x62615a59, 0x66656463,
                         0x6a696867, 0x6e6d6c6b, 0x7271706f, 0x76757473, 0x7a797877, 0x33323130, 0x37363534, 0x00803938]

  lemma FirstRow0()
    ensures Row(Quad(0x67452301, 0xefcdab89, 0x98badcfe, 0x10325476), X, 0)
            == Quad(0xc6c10796, 0x27bce07a, 0x11067980, 0x99a09999)
  {
    hide Operate;
    By7(Quad(0x67452301, 0xefcdab89, 0x98badcfe, 0x10325476), X, 0, 0x98badcfe, 0x44434241, 0xd76aa478, 0x1bade6b8);
    By12(Quad(0x10325476, 0xc6c10796, 0xefcdab89, 0x98badcfe), X, 1, 0xdefbdbe8, 0x48474645, 0xe8c7b756, 0x203d2df9);
    By17(Quad(0x98badcfe, 0x99a09999, 0xc6c10796, 0xefcdab89), X, 2, 0xe6cd2390, 0x4c4b4a49, 0x242070db, 0xeff3bbb2);
    By22(Quad(0xefcdab89, 0x11067980, 0x99a09999, 0xc6c10796), X, 3, 0xd7c11f96, 0x504f4e4d, 0xc1bdceee, 0xd99be85a);
  }

  lemma FirstRow1()
    ensures Row(Quad(0xc6c10796, 0x27bce07a, 0x11067980, 0x99a09999), X, 4)
            == Quad(0xf22e6c4e, 0xa4799506, 0xa95a2fc0, 0xb4ac9218)
  {
    hide Operate;
    By7(Quad(0xc6c10796, 0x27bce07a, 0x11067980, 0x99a09999), X, 4, 0x99047981, 0x54535251, 0xf57c0faf, 0xa994e317);
    By12(Quad(0x99a09999, 0xf22e6c4e, 0x27bce07a, 0x11067980), X, 5, 0x232c71ca, 0x58575655, 0x4787c62a, 0x5cac27e2);
    By17(Quad(0x11067980, 0xb4ac9218, 0xf22e6c4e, 0x27bce07a), X, 6, 0xb33c606a, 0x62615a59, 0xa8304613, 0xced47a56);
    By22(Quad(0x27bce07a, 0xa95a2fc0, 0xb4ac9218, 0xf22e6c4e), X, 7, 0xf22c420e, 0x66656463, 0xfd469501, 0x7d951bec);
  }

  lemma FirstRow2()
    ensures Row(Quad(0xf22e6c4e, 0xa4799506, 0xa95a2fc0, 0xb4ac9218), X, 8)
            == Quad(0x1eb3e7c1, 0x8a7612ec, 0xca27520b, 0xa6e70cfe)
  {
    hide Operate;
    By7(Quad(0xf22e6c4e, 0xa4799506, 0xa95a2fc0, 0xb4ac9218), X, 8, 0xb0dc0718, 0x6a696867, 0x698098d8, 0x76f474a5);
    By12(Quad(0xb4ac9218, 0x1eb3e7c1, 0xa4799506, 0xa95a2fc0), X, 9, 0xa5798d00, 0x6e6d6c6b, 0x8b44f7af, 0x53d88332);
    By17(Quad(0xa95a2fc0, 0xa6e70cfe, 0x1eb3e7c1, 0xa4799506), X, 10, 0x06bb95c0, 0x7271706f, 0xffff5bb1, 0x228691a0);
    By22(Quad(0xa4799506, 0xca27520b, 0xa6e70cfe, 0x1eb3e7c1), X, 11, 0x96b7a5ca, 0x76757473, 0x895cd7be, 0x3b038701);
  }

  lemma FirstRow3()
    ensures Row(Quad(0x1eb3e7c1, 0x8a7612ec, 0xca27520b, 0xa6e70cfe), X, 12)
            == Quad(0x3cbdcd45, 0x5d38e690, 0xfa148c8a, 0xb8dec763)
  {
    hide Operate;
    By7(Quad(0x1eb3e7c1, 0x8a7612ec, 0xca27520b, 0xa6e70cfe), X, 12, 0xaea71e1a, 0x7a797877, 0x6b901122, 0xb3648f74);
    By12(Quad(0xa6e70cfe, 0x3cbdcd45, 0x8a7612ec, 0xca27520b), X, 13, 0xca36124e, 0x33323130, 0xfd987193, 0xa1e7c20f);
    By17(Quad(0xca27520b, 0xb8dec763, 0x3cbdcd45, 0x8a7612ec), X, 14, 0x3abcd5cd, 0x37363534, 0xa679438e, 0xe293a09a);
    By22(Quad(0x8a7612ec, 0xfa148c8a, 0xb8dec763, 0x3cbdcd45), X, 15, 0xbcbdc547, 0x00803938, 0x49b40821, 0x9168198c);
  }

  lemma FirstRow4()
    ensures Row(Quad(0x3cbdcd45, 0x5d38e690, 0xfa148c8a, 0xb8dec763), X, 16)
            == Quad(0x04b9d52a, 0x47ae7c81, 0xd3ee3ed1, 0x783002eb)
  {
    hide Operate;
    By5(Quad(0x3cbdcd45, 0x5d38e690, 0xfa148c8a, 0xb8dec763), X, 16, 0x5a18ce88, 0x48474645, 0xf61e2562, 0xd53c0774);
    By9(Quad(0xb8dec763, 0x04b9d52a, 0x5d38e690, 0xfa148c8a), X, 17, 0x0538e61a, 0x62615a59, 0xc040b340, 0xe0b9bb16);
    By14(Quad(0xfa148c8a, 0x783002eb, 0x04b9d52a, 0x5d38e690), X, 18, 0x58b113aa, 0x76757473, 0x265e5a51, 0xef996ef8);
    By20(Quad(0x5d38e690, 0xd3ee3ed1, 0x783002eb, 0x04b9d52a), X, 19, 0x78a816c1, 0x44434241, 0xe9b6c7aa, 0x03db073c);
  }

  lemma FirstRow5()
    ensures Row(Quad(0x04b9d52a, 0x47ae7c81, 0xd3ee3ed1, 0x783002eb), X, 20)
            == Quad(0x2d7d8a3f, 0x75292030, 0x4b534dc3, 0xd1210823)
  {
    hide Operate;
    By5(Quad(0x04b9d52a, 0x47ae7c81, 0xd3ee3ed1, 0x783002eb), X, 20, 0xc3ee3c91, 0x58575655, 0xd62f105d, 0xf72e786d);
    By9(Quad(0x783002eb, 0x2d7d8a3f, 0x47ae7c81, 0xd3ee3ed1), X, 21, 0x056c4a11, 0x7271706f, 0x02441453, 0xf251d1be);
    By14(Quad(0xd3ee3ed1, 0xd1210823, 0x2d7d8a3f, 0x47ae7c81), X, 22, 0x69718a3f, 0x00803938, 0xd8a1e681, 0x1681e8c9);
    By20(Quad(0x47ae7c81, 0x4b534dc3, 0xd1210823, 0x2d7d8a3f), X, 23, 0xd9510803, 0x54535251, 0xe7d3fbc8, 0x5d26d29d);
  }

  lemma FirstRow6()
    ensures Row(Quad(0x2d7d8a3f, 0x75292030, 0x4b534dc3, 0xd1210823), X, 24)
            == Quad(0x9d2a6e33, 0xf2ff6ea0, 0xd473b564, 0x0e8d2e44)
  {
    hide Operate;
    By5(Quad(0x2d7d8a3f, 0x75292030, 0x4b534dc3, 0xd1210823), X, 24, 0x5b7345e0, 0x6e6d6c6b, 0x21e1cde6, 0x19400a70);
    By9(Quad(0xd1210823, 0x9d2a6e33, 0x75292030, 0x4b534dc3), X, 25, 0x3d2a6c33, 0x37363534, 0xc33707d6, 0x08b8b160);
    By14(Quad(0x4b534dc3, 0x0e8d2e44, 0x9d2a6e33, 0x75292030), X, 26, 0x8c0b6e03, 0x504f4e4d, 0xf4d50d87, 0x1c83179a);
    By20(Quad(0x75292030, 0xd473b564, 0x0e8d2e44, 0x9d2a6e33), X, 27, 0x96a72464, 0x6a696867, 0x455a14ed, 0xbb93c1e8);
  }

  lemma FirstRow7()
    ensures Row(Quad(0x9d2a6e33, 0xf2ff6ea0, 0xd473b564, 0x0e8d2e44), X, 28)
            == Quad(0x9b085fa9, 0xdd789ecc, 0x5993248f, 0x4400a9bd)
  {
    hide Operate;
    By5(Quad(0x9d2a6e33, 0xf2ff6ea0, 0xd473b564, 0x0e8d2e44), X, 28, 0xd2ffbf20, 0x33323130, 0xa9e3e905, 0x4d404788);
    By9(Quad(0x0e8d2e44, 0x9b085fa9, 0xf2ff6ea0, 0xd473b564), X, 29, 0xb28c5fa0, 0x4c4b4a49, 0xfcefa3f8, 0x0a547c25);
    By14(Quad(0xd473b564, 0x4400a9bd, 0x9b085fa9, 0xf2ff6ea0), X, 30, 0x490039a9, 0x66656463, 0x676f02d9, 0xeb485649);
    By20(Quad(0xf2ff6ea0, 0x5993248f, 0x4400a9bd, 0x9b085fa9), X, 31, 0x5d00a49d, 0x7a797877, 0x8d2a4c8a, 0x57a3d83e);
  }

  lemma FirstRow8()
    ensures Row(Quad(0x9b085fa9, 0xdd789ecc, 0x5993248f, 0x4400a9bd), X, 32)
            == Quad(0x21c8d2b7, 0x1b9504f8, 0x056ec119, 0x1d55a18e)
  {
    hide Operate;
    By4(Quad(0x9b085fa9, 0xdd789ecc, 0x5993248f, 0x4400a9bd), X, 32, 0xc0eb13fe, 0x58575655, 0xfffa3942, 0xb445033e);
    By11(Quad(0x4400a9bd, 0x21c8d2b7, 0xdd789ecc, 0x5993248f), X, 33, 0xa52368f4, 0x6a696867, 0x8771f681, 0xdaff7199);
    By16(Quad(0x5993248f, 0x1d55a18e, 0x21c8d2b7, 0xdd789ecc), X, 34, 0xe1e5edf5, 0x76757473, 0x6d9d6122, 0x1f8be819);
    By23(Quad(0xdd789ecc, 0x056ec119, 0x1d55a18e, 0x21c8d2b7), X, 35, 0x39f3b220, 0x37363534, 0xfde5380c, 0x4c87be2c);
  }

  lemma FirstRow9()
    ensures Row(Quad(0x21c8d2b7, 0x1b9504f8, 0x056ec119, 0x1d55a18e), X, 36)
            == Quad(0x436b7fe9, 0xcf0341ed, 0xf404c2f6, 0x075800c1)
  {
    hide Operate;
    By4(Quad(0x21c8d2b7, 0x1b9504f8, 0x056ec119, 0x1d55a18e), X, 36, 0x03ae646f, 0x48474645, 0xa4beea44, 0x127d67af);
    By11(Quad(0x1d55a18e, 0x436b7fe9, 0x1b9504f8, 0x056ec119), X, 37, 0x5d90ba08, 0x54535251, 0x4bdecfa9, 0x1b187d90);
    By16(Quad(0x056ec119, 0x075800c1, 0x436b7fe9, 0x1b9504f8), X, 38, 0x5fa67bd0, 0x66656463, 0xf6bb4b60, 0xc235ecac);
    By23(Quad(0x1b9504f8, 0xf404c2f6, 0x075800c1, 0x436b7fe9), X, 39, 0xb037bdde, 0x7271706f, 0xbebfbc70, 0xfcfdefb5);
  }

  lemma FirstRow10()
    ensures Row(Quad(0x436b7fe9, 0xcf0341ed, 0xf404c2f6, 0x075800c1), X, 40)
            == Quad(0x888e7d8a, 0x047b9419, 0xce620273, 0xbbdaecd8)
  {
    hide Operate;
    By4(Quad(0x436b7fe9, 0xcf0341ed, 0xf404c2f6, 0x075800c1), X, 40, 0x3c5f83da, 0x33323130, 0x289b7ec6, 0xdb98b3b9);
    By11(Quad(0x075800c1, 0x888e7d8a, 0xcf0341ed, 0xf404c2f6), X, 41, 0xb389fe91, 0x44434241, 0xeaa127fa, 0xe9c6698d);
    By16(Quad(0xf404c2f6, 0xbbdaecd8, 0x888e7d8a, 0xcf0341ed), X, 42, 0xfc57d0bf, 0x504f4e4d, 0xd4ef3085, 0x159b1287);
    By23(Quad(0xcf0341ed, 0xce620273, 0xbbdaecd8, 0x888e7d8a), X, 43, 0xfd369321, 0x62615a59, 0x04881d05, 0x33234c6c);
  }

  lemma FirstRow11()
    ensures Row(Quad(0x888e7d8a, 0x047b9419, 0xce620273, 0xbbdaecd8), X, 44)
            == Quad(0x2dbee21d, 0xf166f514, 0xee46e961, 0xe95c3a43)
  {
    hide Operate;
    By4(Quad(0x888e7d8a, 0x047b9419, 0xce620273, 0xbbdaecd8), X, 44, 0x71c37ab2, 0x6e6d6c6b, 0xd9d4d039, 0x429434e0);
    By11(Quad(0xbbdaecd8, 0x2dbee21d, 0x047b9419, 0xce620273), X, 45, 0xe7a77477, 0x7a797877, 0xe6db99e5, 0x04d773ab);
    By16(Quad(0xce620273, 0xe95c3a43, 0x2dbee21d, 0x047b9419), X, 46, 0xc0994c47, 0x00803938, 0x1fa27cf8, 0xaf1e04ea);
    By23(Quad(0x047b9419, 0xee46e961, 0xe95c3a43, 0x2dbee21d), X, 47, 0x2aa4313f, 0x4c4b4a49, 0xc4ac5665, 0x40176606);
  }

  lemma FirstRow12()
    ensures Row(Quad(0x2dbee21d, 0xf166f514, 0xee46e961, 0xe95c3a43), X, 48)
            == Quad(0xe47fd4f3, 0x7a13bc5c, 0xf22aedcc, 0xfb887751)
  {
    hide Operate;
    By6(Quad(0x2dbee21d, 0xf166f514, 0xee46e961, 0xe95c3a43), X, 48, 0x19a11cdd, 0x44434241, 0xf4292244, 0x7fcc637f);
    By10(Quad(0xe95c3a43, 0xe47fd4f3, 0xf166f514, 0xee46e961), X, 49, 0x049923eb, 0x66656463, 0x432aff97, 0x9785c228);
    By15(Quad(0xee46e961, 0xfb887751, 0xe47fd4f3, 0xf166f514), X, 50, 0x1be6ab08, 0x37363534, 0xab9423a7, 0xecf7ed44);
    By21(Quad(0xf166f514, 0xf22aedcc, 0xfb887751, 0xe47fd4f3), X, 51, 0x0022989d, 0x58575655, 0xfc93a039, 0x4674843f);
  }

  lemma FirstRow13()
    ensures Row(Quad(0xe47fd4f3, 0x7a13bc5c, 0xf22aedcc, 0xfb887751), X, 52)
            == Quad(0xa691d430, 0xefb0e72f, 0x3fc23df6, 0x528452f2)
  {
    hide Operate;
    By6(Quad(0xe47fd4f3, 0x7a13bc5c, 0xf22aedcc, 0xfb887751), X, 52, 0x8c5d5132, 0x7a797877, 0x655b59c3, 0x50b1f85f);
    By10(Quad(0xfb887751, 0xa691d430, 0x7a13bc5c, 0xf22aedcc), X, 53, 0xd5c66a6f, 0x504f4e4d, 0x8f0ccc92, 0xb0aafc9f);
    By15(Quad(0xf22aedcc, 0x528452f2, 0xa691d430, 0x7a13bc5c), X, 54, 0x717d87c3, 0x7271706f, 0xffeff47d, 0xd609da7b);
    By21(Quad(0x7a13bc5c, 0x3fc23df6, 0x528452f2, 0xa691d430), X, 55, 0x2d6a6d0d, 0x48474645, 0x85845dd1, 0x7549cd7f);
  }

  lemma FirstRow14()
    ensures Row(Quad(0xa691d430, 0xefb0e72f, 0x3fc23df6, 0x528452f2), X, 56)
            == Quad(0x27145703, 0x49d9a5b4, 0x374fbe79, 0x21a11069)
  {
    hide Operate;
    By6(Quad(0xa691d430, 0xefb0e72f, 0x3fc23df6, 0x528452f2), X, 56, 0xd039d2d9, 0x6a696867, 0x6fa87e4f, 0x50dd8dbf);
    By10(Quad(0x528452f2, 0x27145703, 0xefb0e72f, 0x3fc23df6), X, 57, 0x088d3024, 0x00803938, 0xfe2ce6e0, 0x59bea32e);
    By15(Quad(0x3fc23df6, 0x21a11069, 0x27145703, 0xefb0e72f), X, 58, 0x16fb4ffa, 0x62615a59, 0xa3014314, 0x5c202b5d);
    By21(Quad(0xefb0e72f, 0x374fbe79, 0x21a11069, 0x27145703), X, 59, 0xde4eae94, 0x33323130, 0x4e0811a1, 0x4f39d894);
  }

  lemma FirstRow15()
    ensures Row(Quad(0x27145703, 0x49d9a5b4, 0x374fbe79, 0x21a11069), X, 60)
            == Quad(0x1cb80f0a, 0xef2e3a46, 0x10f68731, 0xea3d3eb4)
  {
    hide Operate;
    By6(Quad(0x27145703, 0x49d9a5b4, 0x374fbe79, 0x21a11069), X, 60, 0xe89051cf, 0x54535251, 0xf7537e82, 0x5b4b79a5);
    By10(Quad(0x21a11069, 0x1cb80f0a, 0x49d9a5b4, 0x374fbe79), X, 61, 0x9561ea3a, 0x76757473, 0xbd3af235, 0xeab3614b);
    By15(Quad(0x374fbe79, 0xea3d3eb4, 0x1cb80f0a, 0x49d9a5b4), X, 62, 0xe28771f5, 0x4c4b4a49, 0x2ad7d2bb, 0x90fa4d72);
    By21(Quad(0x49d9a5b4, 0x10f68731, 0xea3d3eb4, 0x1cb80f0a), X, 63, 0x19cac941, 0x6e6d6c6b, 0xeb86d391, 0xbd98aef1);
  }

  lemma FirstBlock()
    ensures Block(Quad(0x67452301, 0xefcdab89, 0x98badcfe, 0x10325476), X)
            == Quad(0x83fd320b, 0xdefbe5cf, 0xa9b1642f, 0xfa6f932a)
  {
    hide Operate, Steps;
    var q := Quad(0x67452301, 0xefcdab89, 0x98badcfe, 0x10325476);
    NoSteps(q, X);
    FirstRow0();
    StepsOn(q, X, 0);
    FirstRow1();
    StepsOn(q, X, 4);
    FirstRow2();
    StepsOn(q, X, 8);
    FirstRow3();
    StepsOn(q, X, 12);
    FirstRow4();
    StepsOn(q, X, 16);
    FirstRow5();
    StepsOn(q, X, 20);
    FirstRow6();
    StepsOn(q, X, 24);
    FirstRow7();
    StepsOn(q, X, 28);
    FirstRow8();
    StepsOn(q, X, 32);
    FirstRow9();
    StepsOn(q, X, 36);
    FirstRow10();
    StepsOn(q, X, 40);
    FirstRow11();
    StepsOn(q, X, 44);
    FirstRow12();
    StepsOn(q, X, 48);
    FirstRow13();
    StepsOn(q, X, 52);
    FirstRow14();
    StepsOn(q, X, 56);
    FirstRow15();
    StepsOn(q, X, 60);
  }

  const Y: seq<bv32> := [0x00000000, 0x00000000, 0x00000000, 0x00000000, 0x00000000, 0x00000000, 0x00000000, 0x00000000,
                         0x00000000, 0x00000000, 0x00000000, 0x00000000, 0x00000000, 0x00000000, 0x000001f0, 0x00000000]

  lemma SecondRow0()
    ensures Row(Quad(0x83fd320b, 0xdefbe5cf, 0xa9b1642f, 0xfa6f932a), Y, 0)
            == Quad(0xeda23ed1, 0xddcf0634, 0x3c307338, 0x989939cf)
  {
    hide Operate;
    By7(Quad(0x83fd320b, 0xdefbe5cf, 0xa9b1642f, 0xfa6f932a), Y, 0, 0xa8b5762f, 0x00000000, 0xd76aa478, 0x041d4cb2);
    By12(Quad(0xfa6f932a, 0xeda23ed1, 0xdefbe5cf, 0xa9b1642f), Y, 1, 0xccb364ef, 0x00000000, 0xe8c7b756, 0xafeaaf6f);
    By17(Quad(0xa9b1642f, 0x989939cf, 0xeda23ed1, 0xdefbe5cf), Y, 2, 0xcee2fcc1, 0x00000000, 0x242070db, 0x9cb4d1cb);
    By22(Quad(0xdefbe5cf, 0x3c307338, 0x989939cf, 0xeda23ed1), Y, 3, 0xd9923dc9, 0x00000000, 0xc1bdceee, 0x7a4bf286);
  }

  lemma SecondRow1()
    ensures Row(Quad(0xeda23ed1, 0xddcf0634, 0x3c307338, 0x989939cf), Y, 4)
            == Quad(0x75144433, 0x99b6b699, 0xc783cb60, 0xc8875807)
  {
    hide Operate;
    By7(Quad(0xeda23ed1, 0xddcf0634, 0x3c307338, 0x989939cf), Y, 4, 0x1c103bfb, 0x00000000, 0xf57c0faf, 0xff2e8a7b);
    By12(Quad(0x989939cf, 0x75144433, 0xddcf0634, 0x3c307338), Y, 5, 0x5d243738, 0x00000000, 0x4787c62a, 0x3d453731);
    By17(Quad(0x3c307338, 0xc8875807, 0x75144433, 0xddcf0634), Y, 6, 0x554c4633, 0x00000000, 0xa8304613, 0x39acff7e);
    By22(Quad(0xddcf0634, 0xc783cb60, 0xc8875807, 0x75144433), Y, 7, 0xf0974c13, 0x00000000, 0xfd469501, 0xcbace748);
  }

  lemma SecondRow2()
    ensures Row(Quad(0x75144433, 0x99b6b699, 0xc783cb60, 0xc8875807), Y, 8)
            == Quad(0xa60a3f69, 0x64cc7c5a, 0x64db26e9, 0xaa6630be)
  {
    hide Operate;
    By7(Quad(0x75144433, 0x99b6b699, 0xc783cb60, 0xc8875807), Y, 8, 0xc183ca06, 0x00000000, 0x698098d8, 0xa018a711);
    By12(Quad(0xc8875807, 0xa60a3f69, 0x99b6b699, 0xc783cb60), Y, 9, 0xc183f609, 0x00000000, 0x8b44f7af, 0x155045bf);
    By17(Quad(0xc783cb60, 0xaa6630be, 0xa60a3f69, 0x99b6b699), Y, 10, 0xb392b629, 0x00000000, 0xffff5bb1, 0x7b15dd3a);
    By22(Quad(0x99b6b699, 0x64db26e9, 0xaa6630be, 0xa60a3f69), Y, 11, 0xa24239a8, 0x00000000, 0x895cd7be, 0xc555c7ff);
  }

  lemma SecondRow3()
    ensures Row(Quad(0xa60a3f69, 0x64cc7c5a, 0x64db26e9, 0xaa6630be), Y, 12)
            == Quad(0xa70737da, 0xa36f556f, 0x96f6586e, 0x5473f8a7)
  {
    hide Operate;
    By7(Quad(0xa60a3f69, 0x64cc7c5a, 0x64db26e9, 0xaa6630be), Y, 12, 0xeeea24ec, 0x00000000, 0x6b901122, 0x00847577);
    By12(Quad(0xaa6630be, 0xa70737da, 0x64cc7c5a, 0x64db26e9), Y, 13, 0x64dc347b, 0x00000000, 0xfd987193, 0x0cdad6cc);
    By17(Quad(0x64db26e9, 0x5473f8a7, 0xa70737da, 0x64cc7c5a), Y, 14, 0x248f34da, 0x000001f0, 0xa679438e, 0x2fe3a141);
    By22(Quad(0x64cc7c5a, 0x96f6586e, 0x5473f8a7, 0xa70737da), Y, 15, 0x35737fb6, 0x00000000, 0x49b40821, 0xe3f40431);
  }

  lemma SecondRow4()
    ensures Row(Quad(0xa70737da, 0xa36f556f, 0x96f6586e, 0x5473f8a7), Y, 16)
            == Quad(0xa5050ad3, 0x82b8827c, 0x27dcd8b4, 0x28776046)
  {
    hide Operate;
    By5(Quad(0xa70737da, 0xa36f556f, 0x96f6586e, 0x5473f8a7), Y, 16, 0x82e7506f, 0x00000000, 0xf61e2562, 0x200cadab);
    By9(Quad(0x5473f8a7, 0xa5050ad3, 0xa36f556f, 0x96f6586e), Y, 17, 0xa50d0d43, 0x00000000, 0xc040b340, 0xb9c1b92a);
    By14(Quad(0x96f6586e, 0x28776046, 0xa5050ad3, 0xa36f556f), Y, 18, 0x24674ad6, 0x00000000, 0x265e5a51, 0xe1bbfd95);
    By20(Quad(0xa36f556f, 0x27dcd8b4, 0x28776046, 0xa5050ad3), Y, 19, 0x2d766894, 0x00000000, 0xe9b6c7aa, 0xba9c85ad);
  }

  lemma SecondRow5()
    ensures Row(Quad(0xa5050ad3, 0x82b8827c, 0x27dcd8b4, 0x28776046), Y, 20)
            == Quad(0xe04f070c, 0xdf35cb56, 0xc0d22b61, 0x2f3cd2a2)
  {
    hide Operate;
    By5(Quad(0xa5050ad3, 0x82b8827c, 0x27dcd8b4, 0x28776046), Y, 20, 0x07b898f4, 0x00000000, 0xd62f105d, 0x82ecb424);
    By9(Quad(0x28776046, 0xe04f070c, 0x82b8827c, 0x27dcd8b4), Y, 21, 0xa06c024c, 0x00000000, 0x02441453, 0xcb2776e5);
    By14(Quad(0x27dcd8b4, 0x2f3cd2a2, 0xe04f070c, 0x82b8827c), Y, 22, 0x627f8720, 0x00000000, 0xd8a1e681, 0x62fe4655);
    By20(Quad(0x82b8827c, 0xc0d22b61, 0x2f3cd2a2, 0xe04f070c), Y, 23, 0xcf72d3a2, 0x00000000, 0xe7d3fbc8, 0x39ff51e6);
  }

  lemma SecondRow6()
    ensures Row(Quad(0xe04f070c, 0xdf35cb56, 0xc0d22b61, 0x2f3cd2a2), Y, 24)
            == Quad(0x242dd210, 0x2291191a, 0x5c295967, 0x576ace33)
  {
    hide Operate;
    By5(Quad(0xe04f070c, 0xdf35cb56, 0xc0d22b61, 0x2f3cd2a2), Y, 24, 0xcff6eb43, 0x00000000, 0x21e1cde6, 0xd227c035);
    By9(Quad(0x2f3cd2a2, 0x242dd210, 0xdf35cb56, 0xc0d22b61), Y, 25, 0x1f25c216, 0x000001f0, 0xc33707d6, 0x11999e7e);
    By14(Quad(0xc0d22b61, 0x576ace33, 0x242dd210, 0xdf35cb56), Y, 26, 0x7728da12, 0x00000000, 0xf4d50d87, 0x2cd012fa);
    By20(Quad(0xdf35cb56, 0x5c295967, 0x576ace33, 0x242dd210), Y, 27, 0x576b5c23, 0x00000000, 0x455a14ed, 0x7bfb3c66);
  }

  lemma SecondRow7()
    ensures Row(Quad(0x242dd210, 0x2291191a, 0x5c295967, 0x576ace33), Y, 28)
            == Quad(0x24eba695, 0x9c03e2e8, 0x10c42a2f, 0x4bd0378b)
  {
    hide Operate;
    By5(Quad(0x242dd210, 0x2291191a, 0x5c295967, 0x576ace33), Y, 28, 0x0a011956, 0x00000000, 0xa9e3e905, 0xd812d46b);
    By9(Quad(0x576ace33, 0x24eba695, 0x2291191a, 0x5c295967), Y, 29, 0x26b9001d, 0x00000000, 0xfcefa3f8, 0x7b137248);
    By14(Quad(0x5c295967, 0x4bd0378b, 0x24eba695, 0x2291191a), Y, 30, 0x06fab78f, 0x00000000, 0x676f02d9, 0xca9313cf);
    By20(Quad(0x2291191a, 0x10c42a2f, 0x4bd0378b, 0x24eba695), Y, 31, 0x4bd0330f, 0x00000000, 0x8d2a4c8a, 0xfb8b98b3);
  }

  lemma SecondRow8()
    ensures Row(Quad(0x24eba695, 0x9c03e2e8, 0x10c42a2f, 0x4bd0378b), Y, 32)
            == Quad(0x5be1d526, 0xa2448453, 0x9f4a1a7e, 0x9e414279)
  {
    hide Operate;
    By4(Quad(0x24eba695, 0x9c03e2e8, 0x10c42a2f, 0x4bd0378b), Y, 32, 0xc717ff4c, 0x00000000, 0xfffa3942, 0xebfddf23);
    By11(Quad(0x4bd0378b, 0x5be1d526, 0x9c03e2e8, 0x10c42a2f), Y, 33, 0xd7261de1, 0x00000000, 0x8771f681, 0xaa684bed);
    By16(Quad(0x10c42a2f, 0x9e414279, 0x5be1d526, 0x9c03e2e8), Y, 34, 0x59a375b7, 0x00000000, 0x6d9d6122, 0xd8050108);
    By23(Quad(0x9c03e2e8, 0x9f4a1a7e, 0x9e414279, 0x5be1d526), Y, 35, 0x5aea8d21, 0x000001f0, 0xfde5380c, 0xf4d3aa05);
  }

  lemma SecondRow9()
    ensures Row(Quad(0x5be1d526, 0xa2448453, 0x9f4a1a7e, 0x9e414279), Y, 36)
            == Quad(0xe14e403d, 0xfe314121, 0x60cc183a, 0xe8cfd670)
  {
    hide Operate;
    By4(Quad(0x5be1d526, 0xa2448453, 0x9f4a1a7e, 0x9e414279), Y, 36, 0xa34fdc54, 0x00000000, 0xa4beea44, 0xa3f09bbe);
    By11(Quad(0x9e414279, 0xe14e403d, 0xa2448453, 0x9f4a1a7e), Y, 37, 0xdc40de10, 0x00000000, 0x4bdecfa9, 0xc660f032);
    By16(Quad(0x9f4a1a7e, 0xe8cfd670, 0xe14e403d, 0xa2448453), Y, 38, 0xabc5121e, 0x00000000, 0xf6bb4b60, 0x41ca77fc);
    By23(Quad(0xa2448453, 0x60cc183a, 0xe8cfd670, 0xe14e403d), Y, 39, 0x694d8e77, 0x00000000, 0xbebfbc70, 0xca51cf3a);
  }

  lemma SecondRow10()
    ensures Row(Quad(0xe14e403d, 0xfe314121, 0x60cc183a, 0xe8cfd670), Y, 40)
            == Quad(0xfff62809, 0x7c7e974c, 0x8cb5221c, 0xe37209ac)
  {
    hide Operate;
    By4(Quad(0xe14e403d, 0xfe314121, 0x60cc183a, 0xe8cfd670), Y, 40, 0x76328f6b, 0x00000000, 0x289b7ec6, 0x801c4e6e);
    By11(Quad(0xe8cfd670, 0xfff62809, 0xfe314121, 0x60cc183a), Y, 41, 0x610b7112, 0x00000000, 0xeaa127fa, 0x347c6f7c);
    By16(Quad(0x60cc183a, 0xe37209ac, 0xfff62809, 0xfe314121), Y, 42, 0xe2b56084, 0x00000000, 0xd4ef3085, 0x1870a943);
    By23(Quad(0xfe314121, 0x8cb5221c, 0xe37209ac, 0xfff62809), Y, 43, 0x903103b9, 0x00000000, 0x04881d05, 0x92ea61df);
  }

  lemma SecondRow11()
    ensures Row(Quad(0xfff62809, 0x7c7e974c, 0x8cb5221c, 0xe37209ac), Y, 44)
            == Quad(0x54c9eb3a, 0x79c0710a, 0x2ec86f72, 0xd4d9c6ac)
  {
    hide Operate;
    By4(Quad(0xfff62809, 0x7c7e974c, 0x8cb5221c, 0xe37209ac), Y, 44, 0x13b9bcfc, 0x00000000, 0xd9d4d039, 0xed84b53e);
    By11(Quad(0xe37209ac, 0x54c9eb3a, 0x7c7e974c, 0x8cb5221c), Y, 45, 0xa4025e6a, 0x00000000, 0xe6db99e5, 0x6e5001fb);
    By16(Quad(0x8cb5221c, 0xd4d9c6ac, 0x54c9eb3a, 0x7c7e974c), Y, 46, 0xfc6ebada, 0x00000000, 0x1fa27cf8, 0xa8c659ee);
    By23(Quad(0x7c7e974c, 0x2ec86f72, 0xd4d9c6ac, 0x54c9eb3a), Y, 47, 0xaed842e4, 0x00000000, 0xc4ac5665, 0xf0033095);
  }

  lemma SecondRow12()
    ensures Row(Quad(0x54c9eb3a, 0x79c0710a, 0x2ec86f72, 0xd4d9c6ac), Y, 48)
            == Quad(0x02095af1, 0x2ba98e3f, 0xa8dcfe26, 0x13d245fd)
  {
    hide Operate;
    By6(Quad(0x54c9eb3a, 0x79c0710a, 0x2ec86f72, 0xd4d9c6ac), Y, 48, 0x552e1629, 0x00000000, 0xf4292244, 0x9e2123a7);
    By10(Quad(0xd4d9c6ac, 0x02095af1, 0x79c0710a, 0x2ec86f72), Y, 49, 0xaaffabf7, 0x00000000, 0x432aff97, 0xc304723a);
    By15(Quad(0x2ec86f72, 0x13d245fd, 0x02095af1, 0x79c0710a), Y, 50, 0x95f6950c, 0x000001f0, 0xab9423a7, 0x70532a15);
    By21(Quad(0x79c0710a, 0xa8dcfe26, 0x13d245fd, 0x02095af1), Y, 51, 0xee2cbad3, 0x00000000, 0xfc93a039, 0x6480cc16);
  }

  lemma SecondRow13()
    ensures Row(Quad(0x02095af1, 0x2ba98e3f, 0xa8dcfe26, 0x13d245fd), Y, 52)
            == Quad(0xe126c1aa, 0xfb7bcee0, 0x6f287ff5, 0x96b00fa7)
  {
    hide Operate;
    By6(Quad(0x02095af1, 0x2ba98e3f, 0xa8dcfe26, 0x13d245fd), Y, 52, 0x47714019, 0x00000000, 0x655b59c3, 0xaed5f4cd);
    By10(Quad(0x13d245fd, 0xe126c1aa, 0x2ba98e3f, 0xa8dcfe26), Y, 53, 0xdc8e4fc4, 0x00000000, 0x8f0ccc92, 0x7f6d6253);
    By15(Quad(0xa8dcfe26, 0x96b00fa7, 0xe126c1aa, 0x2ba98e3f), Y, 54, 0x37d0be4d, 0x00000000, 0xffeff47d, 0xe09db0f0);
    By21(Quad(0x2ba98e3f, 0x6f287ff5, 0x96b00fa7, 0xe126c1aa), Y, 55, 0xe9497052, 0x00000000, 0x85845dd1, 0x9a775c62);
  }

  lemma SecondRow14()
    ensures Row(Quad(0xe126c1aa, 0xfb7bcee0, 0x6f287ff5, 0x96b00fa7), Y, 56)
            == Quad(0x452c1099, 0x5ac74608, 0xc197ea8e, 0xca801ba6)
  {
    hide Operate;
    By6(Quad(0xe126c1aa, 0xfb7bcee0, 0x6f287ff5, 0x96b00fa7), Y, 56, 0x9457810d, 0x00000000, 0x6fa87e4f, 0xe526c106);
    By10(Quad(0x96b00fa7, 0x452c1099, 0xfb7bcee0, 0x6f287ff5), Y, 57, 0x2e845e7b, 0x00000000, 0xfe2ce6e0, 0xc3615502);
    By15(Quad(0x6f287ff5, 0xca801ba6, 0x452c1099, 0xfb7bcee0), Y, 58, 0x8ba82b26, 0x00000000, 0xa3014314, 0x9dd1ee2f);
    By21(Quad(0xfb7bcee0, 0xc197ea8e, 0xca801ba6, 0x452c1099), Y, 59, 0x3157f448, 0x00000000, 0x4e0811a1, 0x7adbd4c9);
  }

  lemma SecondRow15()
    ensures Row(Quad(0x452c1099, 0x5ac74608, 0xc197ea8e, 0xca801ba6), Y, 60)
            == Quad(0x14ae42c6, 0x16dd9203, 0x826afd76, 0xa52dae75)
  {
    hide Operate;
    By6(Quad(0x452c1099, 0x5ac74608, 0xc197ea8e, 0xca801ba6), Y, 60, 0xbe680cd7, 0x00000000, 0xf7537e82, 0xfae79bf2);
    By10(Quad(0xca801ba6, 0x14ae42c6, 0x5ac74608, 0xc197ea8e), Y, 61, 0x642911ff, 0x00000000, 0xbd3af235, 0xebe41fda);
    By15(Quad(0xc197ea8e, 0xa52dae75, 0x14ae42c6, 0x5ac74608), Y, 62, 0xb193fd31, 0x00000000, 0x2ad7d2bb, 0x9e03ba7a);
    By21(Quad(0x5ac74608, 0x826afd76, 0xa52dae75, 0x14ae42c6), Y, 63, 0x4e56530a, 0x00000000, 0xeb86d391, 0x94a46ca3);
  }

  lemma SecondBlock()
    ensures Block(Quad(0x83fd320b, 0xdefbe5cf, 0xa9b1642f, 0xfa6f932a), Y)
            == Quad(0x98ab74d1, 0xf5d977d2, 0x2c1c61a5, 0x9f9d419f)
  {
    hide Operate, Steps;
    var q := Quad(0x83fd320b, 0xdefbe5cf, 0xa9b1642f, 0xfa6f932a);
    NoSteps(q, Y);
    SecondRow0();
    StepsOn(q, Y, 0);
    SecondRow1();
    StepsOn(q, Y, 4);
    SecondRow2();
    StepsOn(q, Y, 8);
    SecondRow3();
    StepsOn(q, Y, 12);
    SecondRow4();
    StepsOn(q, Y, 16);
    SecondRow5();
    StepsOn(q, Y, 20);
    SecondRow6();
    StepsOn(q, Y, 24);
    SecondRow7();
    StepsOn(q, Y, 28);
    SecondRow8();
    StepsOn(q, Y, 32);
    SecondRow9();
    StepsOn(q, Y, 36);
    SecondRow10();
    StepsOn(q, Y, 40);
    SecondRow11();
    StepsOn(q, Y, 44);
    SecondRow12();
    StepsOn(q, Y, 48);
    SecondRow13();
    StepsOn(q, Y, 52);
    SecondRow14();
    StepsOn(q, Y, 56);
    SecondRow15();
    StepsOn(q, Y, 60);
  }

  /** So many characters from `first` on. */
  function Run(first: byte, n: nat): (b: seq<byte>)
    requires first as nat + n <= 0x80
  {
    seq(n, i requires 0 <= i < n => first as nat + i)
  }

  /** All capital letters, all small letters and all digits. */
  const MESSAGE: seq<byte> := Run(0x41, 26) + Run(0x61, 26) + Run(0x30, 10)
  const FIRST_BYTES: seq<byte> := MESSAGE + [0x80, 0]
  const SECOND_BYTES: seq<byte> := Zeros(56) + [0xF0, 0x01, 0, 0, 0, 0, 0, 0]

  lemma FirstWords0()
    ensures Word([0x41, 0x42, 0x43, 0x44]) == 0x44434241
    ensures Word([0x45, 0x46, 0x47, 0x48]) == 0x48474645
    ensures Word([0x49, 0x4A, 0x4B, 0x4C]) == 0x4c4b4a49
    ensures Word([0x4D, 0x4E, 0x4F, 0x50]) == 0x504f4e4d
  {
  }

  lemma FirstWords1()
    ensures Word([0x51, 0x52, 0x53, 0x54]) == 0x54535251
    ensures Word([0x55, 0x56, 0x57, 0x58]) == 0x58575655
    ensures Word([0x59, 0x5A, 0x61, 0x62]) == 0x62615a59
    ensures Word([0x63, 0x64, 0x65, 0x66]) == 0x66656463
  {
  }

  lemma FirstWords2()
    ensures Word([0x67, 0x68, 0x69, 0x6A]) == 0x6a696867
    ensures Word([0x6B, 0x6C, 0x6D, 0x6E]) == 0x6e6d6c6b
    ensures Word([0x6F, 0x70, 0x71, 0x72]) == 0x7271706f
    ensures Word([0x73, 0x74, 0x75, 0x76]) == 0x76757473
  {
  }

  lemma FirstWords3()
    ensures Word([0x77, 0x78, 0x79, 0x7A]) == 0x7a797877
    ensures Word([0x30, 0x31, 0x32, 0x33]) == 0x33323130
    ensures Word([0x34, 0x35, 0x36, 0x37]) == 0x37363534
    ensures Word([0x38, 0x39, 0x80, 0x00]) == 0x00803938
  {
  }

  lemma FirstSlices()
    ensures FIRST_BYTES[0..4] == [0x41, 0x42, 0x43, 0x44]
    ensures FIRST_BYTES[4..8] == [0x45, 0x46, 0x47, 0x48]
    ensures FIRST_BYTES[8..12] == [0x49, 0x4A, 0x4B, 0x4C]
    ensures FIRST_BYTES[12..16] == [0x4D, 0x4E, 0x4F, 0x50]
    ensures FIRST_BYTES[16..20] == [0x51, 0x52, 0x53, 0x54]
    ensures FIRST_BYTES[20..24] == [0x55, 0x56, 0x57, 0x58]
    ensures FIRST_BYTES[24..28] == [0x59, 0x5A, 0x61, 0x62]
    ensures FIRST_BYTES[28..32] == [0x63, 0x64, 0x65, 0x66]
    ensures FIRST_BYTES[32..36] == [0x67, 0x68, 0x69, 0x6A]
    ensures FIRST_BYTES[36..40] == [0x6B, 0x6C, 0x6D, 0x6E]
    ensures FIRST_BYTES[40..44] == [0x6F, 0x70, 0x71, 0x72]
    ensures FIRST_BYTES[44..48] == [0x73, 0x74, 0x75, 0x76]
    ensures FIRST_BYTES[48..52] == [0x77, 0x78, 0x79, 0x7A]
    ensures FIRST_BYTES[52..56] == [0x30, 0x31, 0x32, 0x33]
    ensures FIRST_BYTES[56..60] == [0x34, 0x35, 0x36, 0x37]
    ensures FIRST_BYTES[60..64] == [0x38, 0x39, 0x80, 0x00]
  {
  }

  lemma SecondWords()
    ensures Words(SECOND_BYTES) == Y
  {
    hide Word;
    SecondWord();
    var w := Words(SECOND_BYTES);
    assert forall i :: 0 <= i < 14 ==> SECOND_BYTES[4 * i..4 * i + 4] == [0, 0, 0, 0];
    assert SECOND_BYTES[56..60] == [0xF0, 0x01, 0, 0] && SECOND_BYTES[60..64] == [0, 0, 0, 0];
    assert forall i :: 0 <= i < 16 ==> w[i] == Y[i];
  }

  lemma SecondWord()
    ensures Word([0, 0, 0, 0]) == 0 && Word([0xF0, 0x01, 0, 0]) == 0x1F0
  {
  }

  lemma FirstWords()
    ensures Words(FIRST_BYTES) == X
  {
    hide Word;
    FirstSlices();
    FirstWords0();
    FirstWords1();
    FirstWords2();
    FirstWords3();
    var w := Words(FIRST_BYTES);
    assert forall i :: 0 <= i < 16 ==> w[i] == Word(FIRST_BYTES[4 * i..4 * i + 4]);
  }

  /** The bytes of a 64-bit number, the lowest one first. */
  lemma LengthBytes(n: nat)
    requires n < U64
    ensures var b := Le64(n);
            && n % U32 == b[0] as int + b[1] as int * 0x100 + b[2] as int * 0x1_0000 + b[3] as int * 0x100_0000
            && n / U32 == b[4] as int + b[5] as int * 0x100 + b[6] as int * 0x1_0000 + b[7] as int * 0x100_0000
  {
    hide Be32;
    Be32Layout(n % U32);
    Be32Layout(n / U32);
  }

  lemma PaddedMessage()
    ensures Padded(MESSAGE) == FIRST_BYTES + SECOND_BYTES
  {
    assert Le64(8 * 62) == [0xF0, 0x01, 0, 0, 0, 0, 0, 0];
    assert Padding(62) == [0x80] + Zeros(57);
    assert Zeros(57) == [0] + Zeros(56);
  }

  lemma DigestBytes()
    ensures Output(Quad(0x98ab74d1, 0xf5d977d2, 0x2c1c61a5, 0x9f9d419f))
            == [0xd1, 0x74, 0xab, 0x98, 0xd2, 0x77, 0xd9, 0xf5, 0xa5, 0x61, 0x1c, 0x2c, 0x9f, 0x41, 0x9d, 0x9f]
  {
  }

  /** The digest that the RFC gives: d174ab98d277d9f5a5611c2c9f419d9f. */
  lemma TestVector()
    ensures Digest(MESSAGE)
            == [0xd1, 0x74, 0xab, 0x98, 0xd2, 0x77, 0xd9, 0xf5, 0xa5, 0x61, 0x1c, 0x2c, 0x9f, 0x41, 0x9d, 0x9f]
  {
    hide Block, Words, Fold, Padded, Output;
    PaddedMessage();
    FoldConcat(INIT, FIRST_BYTES, SECOND_BYTES);
    FoldBlock(INIT, FIRST_BYTES);
    FoldBlock(Block(INIT, X), SECOND_BYTES);
    FirstWords();
    SecondWords();
    FirstBlock();
    SecondBlock();
    DigestBytes();
  }
}
