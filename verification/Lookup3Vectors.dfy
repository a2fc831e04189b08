/** Known hashes, worked out step by step. */
module Lookup3Vectors {
  import opened Common
  import opened Lookup3

  // ----- exclusive or of bytes

  function V(x: bv8): (n: nat)
    ensures n < 0x100
  {
    x as int
  }

  lemma ByteHalves(x: bv8)
    ensures V(x) % 2 == V(x & 1) && V(x) / 2 == V(x >> 1) && V(x) == V(x & 1) + 2 * V(x >> 1)
  {
  }

  lemma Parity(x: bv8, y: bv8)
    ensures V((x ^ y) & 1) == if V(x & 1) != V(y & 1) then 1 else 0
  {
    var p, q := x & 1, y & 1;
    assert (x ^ y) & 1 == p ^ q;
    assert (p == 0 || p == 1) && (q == 0 || q == 1);
    assert p == q ==> p ^ q == 0;
    assert p != q ==> p ^ q == 1;
  }

  lemma ShiftedXor(x: bv8, y: bv8)
    ensures (x ^ y) >> 1 == (x >> 1) ^ (y >> 1)
  {
  }

  lemma ZeroByte(x: bv8, y: bv8)
    requires V(x) == 0 && V(y) == 0
    ensures V(x ^ y) == 0
  {
  }

  lemma {:induction false} XorOfBytes(x: bv8, y: bv8, n: nat)
    requires V(x) < Pow2(n) && V(y) < Pow2(n)
    ensures XorBits(V(x), V(y), n) == V(x ^ y)
  {
    hide V;
    if n == 0 {
      ZeroByte(x, y);
    } else {
      ByteHalves(x);
      ByteHalves(y);
      ByteHalves(x ^ y);
      Parity(x, y);
      ShiftedXor(x, y);
      XorOfBytes(x >> 1, y >> 1, n - 1);
    }
  }

  lemma XorStep(x: nat, x': nat, y: nat, y': nat, p: nat, n: nat)
    requires n > 0
    ensures XorBits(x + 2 * p * x', y + 2 * p * y', n) ==
            (if x % 2 != y % 2 then 1 else 0) + 2 * XorBits(x / 2 + p * x', y / 2 + p * y', n - 1)
  {
    var u, v := p * x', p * y';
    assert x + 2 * p * x' == x % 2 + 2 * (x / 2 + u) && y + 2 * p * y' == y % 2 + 2 * (y / 2 + v);
    LowestBit(x % 2, x / 2 + u);
    LowestBit(y % 2, y / 2 + v);
  }

  lemma XorUnfolds(x: nat, y: nat, n: nat)
    requires n > 0
    ensures XorBits(x, y, n) == (if x % 2 != y % 2 then 1 else 0) + 2 * XorBits(x / 2, y / 2, n - 1)
  {
  }

  lemma {:induction false} XorJoins(x: nat, x': nat, y: nat, y': nat, m: nat, n: nat)
    requires x < Pow2(m) && y < Pow2(m)
    ensures XorBits(x + Pow2(m) * x', y + Pow2(m) * y', m + n) == XorBits(x, y, m) + Pow2(m) * XorBits(x', y', n)
  {
    if m > 0 {
      hide XorBits;
      var p, z := Pow2(m - 1), XorBits(x', y', n);
      assert Pow2(m) == 2 * p;
      XorStep(x, x', y, y', p, m + n);
      XorUnfolds(x, y, m);
      XorJoins(x / 2, x', y / 2, y', m - 1, n);
      Doubled(p, z);
    }
  }

  lemma Doubled(p: nat, z: nat)
    ensures 2 * p * z == 2 * (p * z)
  {
  }

  // ----- words of four bytes, the highest first

  function W(b3: bv8, b2: bv8, b1: bv8, b0: bv8): uint32 {
    V(b0) + 0x100 * V(b1) + 0x1_0000 * V(b2) + 0x100_0000 * V(b3)
  }

  lemma XorOfWords(x3: bv8, x2: bv8, x1: bv8, x0: bv8, y3: bv8, y2: bv8, y1: bv8, y0: bv8)
    ensures Xor(W(x3, x2, x1, x0), W(y3, y2, y1, y0)) == W(x3 ^ y3, x2 ^ y2, x1 ^ y1, x0 ^ y0)
  {
    hide V, XorBits, Pow2;
    ByteSizes();
    XorOfBytes(x0, y0, 8);
    XorOfBytes(x1, y1, 8);
    XorOfBytes(x2, y2, 8);
    XorOfBytes(x3, y3, 8);
    XorJoins(V(x2), V(x3), V(y2), V(y3), 8, 8);
    XorJoins(V(x1), V(x2) + 0x100 * V(x3), V(y1), V(y2) + 0x100 * V(y3), 8, 16);
    XorJoins(V(x0), V(x1) + 0x100 * (V(x2) + 0x100 * V(x3)), V(y0), V(y1) + 0x100 * (V(y2) + 0x100 * V(y3)), 8, 24);
  }

  lemma Powers()
    ensures Pow2(4) == 0x10 && Pow2(28) == 0x1000_0000 && Pow2(6) == 0x40 && Pow2(26) == 0x400_0000
    ensures Pow2(8) == 0x100 && Pow2(24) == 0x100_0000 && Pow2(16) == 0x1_0000
    ensures Pow2(19) == 0x8_0000 && Pow2(13) == 0x2000 && Pow2(14) == 0x4000 && Pow2(18) == 0x4_0000
    ensures Pow2(11) == 0x800 && Pow2(21) == 0x20_0000 && Pow2(25) == 0x200_0000 && Pow2(7) == 0x80
  {
    ByteSizes();
  }

  /** A step on numbers: `d` is the difference and `r` the rotated word. */
  lemma Stepped(s: State, k: nat, d3: bv8, d2: bv8, d1: bv8, d0: bv8, r3: bv8, r2: bv8, r1: bv8, r0: bv8)
    requires 0 < k < 32
    requires Minus(s.a, s.c) == W(d3, d2, d1, d0) && Rot(s.c, k) == W(r3, r2, r1, r0)
    ensures Step(s, k) == State(s.b, Plus(s.c, s.b), W(d3 ^ r3, d2 ^ r2, d1 ^ r1, d0 ^ r0))
  {
    hide V, W, Xor, Rot;
    XorOfWords(d3, d2, d1, d0, r3, r2, r1, r0);
  }

  lemma FinalStepped(s: State, k: nat, c3: bv8, c2: bv8, c1: bv8, c0: bv8, b3: bv8, b2: bv8, b1: bv8, b0: bv8)
    requires 0 < k < 32 && s.c == W(c3, c2, c1, c0) && s.b == W(b3, b2, b1, b0)
    ensures FinalStep(s, k) == State(s.b, Minus(W(c3 ^ b3, c2 ^ b2, c1 ^ b1, c0 ^ b0), Rot(s.b, k)), s.a)
  {
    hide V, W, Xor, Rot;
    XorOfWords(c3, c2, c1, c0, b3, b2, b1, b0);
  }

  // ----- "Four score and seven years ago"

  const FIRST: seq<byte> := [0x46, 0x6f, 0x75, 0x72, 0x20, 0x73, 0x63, 0x6f, 0x72, 0x65, 0x20, 0x61]
  const SECOND: seq<byte> := [0x6e, 0x64, 0x20, 0x73, 0x65, 0x76, 0x65, 0x6e, 0x20, 0x79, 0x65, 0x61]
  const LAST: seq<byte> := [0x72, 0x73, 0x20, 0x61, 0x67, 0x6f]

  lemma SpeechBlock1()
    ensures Mix(State(0x5123_2e53, 0x4e11_322d, 0x3fce_247f)) == State(0xf859_ad7a, 0x04bc_57ae, 0x40dd_dd7e)
  {
    hide Step;
    Powers();
    Stepped(State(0x5123_2e53, 0x4e11_322d, 0x3fce_247f), 4, 0x11, 0x55, 0x09, 0xd4,
            0xfc, 0xe2, 0x47, 0xf3);
    Stepped(State(0x4e11_322d, 0x8ddf_56ac, 0xedb7_4e27), 6, 0x60, 0x59, 0xe4, 0x06,
            0x6d, 0xd3, 0x89, 0xfb);
    Stepped(State(0x8ddf_56ac, 0x7b96_a4d3, 0x0d8a_6dfd), 8, 0x80, 0x54, 0xe8, 0xaf,
            0x8a, 0x6d, 0xfd, 0x0d);
    Stepped(State(0x7b96_a4d3, 0x8921_12d0, 0x0a39_15a2), 16, 0x71, 0x5d, 0x8f, 0x31,
            0x15, 0xa2, 0x0a, 0x39);
    Stepped(State(0x8921_12d0, 0x935a_2872, 0x64ff_8508), 19, 0x24, 0x21, 0x8d, 0xc8,
            0x28, 0x43, 0x27, 0xfc);
    Stepped(State(0x935a_2872, 0xf859_ad7a, 0x0c62_aa34), 4, 0x86, 0xf7, 0x7e, 0x3e,
            0xc6, 0x2a, 0xa3, 0x40);
  }

  lemma SpeechBlock2()
    ensures Mix(State(0x6b7a_11e8, 0x7321_ce13, 0xa243_569e)) == State(0x336a_ded2, 0x059f_2642, 0xbd02_ebd5)
  {
    hide Step;
    Powers();
    Stepped(State(0x6b7a_11e8, 0x7321_ce13, 0xa243_569e), 4, 0xc9, 0x36, 0xbb, 0x4a,
            0x24, 0x35, 0x69, 0xea);
    Stepped(State(0x7321_ce13, 0x1565_24b1, 0xed03_d2a0), 6, 0x86, 0x1d, 0xfb, 0x73,
            0x40, 0xf4, 0xa8, 0x3b);
    Stepped(State(0x1565_24b1, 0x0268_f751, 0xc6e9_5348), 8, 0x4e, 0x7b, 0xd1, 0x69,
            0xe9, 0x53, 0x48, 0xc6);
    Stepped(State(0x0268_f751, 0xc952_4a99, 0xa728_99af), 16, 0x5b, 0x40, 0x5d, 0xa2,
            0x99, 0xaf, 0xa7, 0x28);
    Stepped(State(0xc952_4a99, 0x707a_e448, 0xc2ef_fa8a), 19, 0x06, 0x62, 0x50, 0x0f,
            0xd4, 0x56, 0x17, 0x7f);
    Stepped(State(0x707a_e448, 0x336a_ded2, 0xd234_4770), 4, 0x9e, 0x46, 0x9c, 0xd8,
            0x23, 0x44, 0x77, 0x0d);
  }

  lemma SpeechTail()
    ensures Final(State(0x948b_5244, 0x059f_95a9, 0xbd02_ebd5)) == State(0x9a83_7816, 0xce72_26e6, 0x1777_0551)
  {
    hide FinalStep;
    Powers();
    FinalStepped(State(0x948b_5244, 0x059f_95a9, 0xbd02_ebd5), 14, 0xbd, 0x02, 0xeb, 0xd5,
                 0x05, 0x9f, 0x95, 0xa9);
    FinalStepped(State(0x059f_95a9, 0xd333_3d15, 0x948b_5244), 11, 0x94, 0x8b, 0x52, 0x44,
                 0xd3, 0x33, 0x3d, 0x15);
    FinalStepped(State(0xd333_3d15, 0xadcf_c0b8, 0x059f_95a9), 25, 0x05, 0x9f, 0x95, 0xa9,
                 0xad, 0xcf, 0xc0, 0xb8);
    FinalStepped(State(0xadcf_c0b8, 0x36f4_b590, 0xd333_3d15), 16, 0xd3, 0x33, 0x3d, 0x15,
                 0x36, 0xf4, 0xb5, 0x90);
    FinalStepped(State(0x36f4_b590, 0x3037_5191, 0xadcf_c0b8), 4, 0xad, 0xcf, 0xc0, 0xb8,
                 0x30, 0x37, 0x51, 0x91);
    FinalStepped(State(0x3037_5191, 0x9a83_7816, 0x36f4_b590), 14, 0x36, 0xf4, 0xb5, 0x90,
                 0x9a, 0x83, 0x78, 0x16);
    FinalStepped(State(0x9a83_7816, 0xce72_26e6, 0x3037_5191), 24, 0x30, 0x37, 0x51, 0x91,
                 0xce, 0x72, 0x26, 0xe6);
  }

  lemma SpeechWords()
    ensures Absorb(State(0xdead_bf0d, 0xdead_bf0d, 0xdead_bf0d), FIRST) == State(0x5123_2e53, 0x4e11_322d, 0x3fce_247f)
    ensures Absorb(State(0xf859_ad7a, 0x04bc_57ae, 0x40dd_dd7e), SECOND) == State(0x6b7a_11e8, 0x7321_ce13, 0xa243_569e)
    ensures Absorb(State(0x336a_ded2, 0x059f_2642, 0xbd02_ebd5), LAST) == State(0x948b_5244, 0x059f_95a9, 0xbd02_ebd5)
  {
  }

  /** A block of twelve bytes with more after it is mixed. */
  lemma BlockFirst(s: State, block: seq<byte>, rest: seq<byte>)
    requires |block| == 12 && rest != []
    ensures HashFrom(s, block + rest) == HashFrom(Mix(Absorb(s, block)), rest)
  {
    hide Mix, Final, Compose, Plus;
    var key := block + rest;
    assert forall i :: 0 <= i < 12 ==> ByteOf(key, i) == ByteOf(block, i);
    assert key[12..] == rest;
  }

  /** The two words that the thirty bytes hash to, two blocks and a tail of six. */
  lemma KnownHash()
    ensures Hash(FIRST + (SECOND + LAST), 0, 0) == (0x1777_0551, 0xce72_26e6)
  {
    hide Mix, Final, Absorb;
    SpeechWords();
    SpeechBlock1();
    SpeechBlock2();
    SpeechTail();
    BlockFirst(State(0xdead_bf0d, 0xdead_bf0d, 0xdead_bf0d), FIRST, SECOND + LAST);
    BlockFirst(State(0xf859_ad7a, 0x04bc_57ae, 0x40dd_dd7e), SECOND, LAST);
  }

  /** The empty key hashes to the two starting words. */
  lemma EmptyKey(pc: uint32, pb: uint32)
    ensures Hash([], pc, pb) == ((0xdead_beef + pc + pb) % 0x1_0000_0000, (0xdead_beef + pc) % 0x1_0000_0000)
    ensures Hash([], 0, 0) == (0xdead_beef, 0xdead_beef)
  {
  }
}
