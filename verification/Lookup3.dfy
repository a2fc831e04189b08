/** The lookup3 hash: three ways to read a key, one hash.  Words are numbers below two to the
    power 32; wrap-around, shifts and masks are written out as arithmetic. */
module Lookup3 {
  import opened Common

  type uint32 = n: nat | n < 0x1_0000_0000

  datatype State = State(a: uint32, b: uint32, c: uint32)

  // ----- 32-bit arithmetic

  function Plus(x: uint32, y: uint32): uint32 {
    if x + y < UINT32_LIMIT then x + y else x + y - UINT32_LIMIT
  }

  function Minus(x: uint32, y: uint32): uint32 {
    if y <= x then x - y else x - y + UINT32_LIMIT
  }

  function Pow2(n: nat): (p: nat)
    ensures p > 0
  {
    if n == 0 then 1 else 2 * Pow2(n - 1)
  }

  /** The lowest `n` bits. */
  function LowBits(x: nat, n: nat): (r: nat)
    ensures r < Pow2(n) && r <= x
  {
    if n == 0 then 0 else x % 2 + 2 * LowBits(x / 2, n - 1)
  }

  /** Exclusive or of the lowest `n` bits. */
  function XorBits(x: nat, y: nat, n: nat): (r: nat)
    ensures r < Pow2(n)
  {
    if n == 0 then 0 else (if x % 2 != y % 2 then 1 else 0) + 2 * XorBits(x / 2, y / 2, n - 1)
  }

  lemma ByteSizes()
    ensures Pow2(8) == 0x100 && Pow2(16) == 0x1_0000 && Pow2(24) == 0x100_0000
  {
  }

  lemma WordSize()
    ensures Pow2(32) == UINT32_LIMIT
  {
    ByteSizes();
  }

  function Xor(x: uint32, y: uint32): uint32 {
    WordSize();
    XorBits(x, y, 32)
  }

  lemma {:induction false} PowersMultiply(m: nat, n: nat)
    ensures Pow2(m + n) == Pow2(m) * Pow2(n)
  {
    if m > 0 {
      PowersMultiply(m - 1, n);
    }
  }

  /** A word of two parts, `x % q` above `x / q`. */
  function Swapped(x: nat, q: nat, p: nat): nat
    requires q > 0
  {
    x % q * p + x / q
  }

  lemma SwappedBound(x: nat, q: nat, p: nat)
    requires q > 0 && p > 0 && x < q * p
    ensures Swapped(x, q, p) < q * p
  {
    QuotientBound(x, q, p);
    ProductGrows(x % q, q - 1, p);
    assert (q - 1) * p == q * p - p;
  }

  lemma QuotientBound(x: nat, q: nat, p: nat)
    requires q > 0 && x < q * p
    ensures x / q < p
  {
    if x / q >= p {
      ProductGrows(p, x / q, q);
    }
  }

  lemma ProductGrows(a: nat, b: nat, c: nat)
    requires a <= b
    ensures a * c <= b * c
  {
    assert (b - a) * c >= 0;
  }

  lemma RotBound(x: uint32, k: nat)
    requires 0 < k < 32
    ensures Swapped(x, Pow2(32 - k), Pow2(k)) < UINT32_LIMIT
  {
    hide Swapped;
    WordSize();
    PowersMultiply(32 - k, k);
    SwappedBound(x, Pow2(32 - k), Pow2(k));
  }

  /** The low bits move up and the `k` high ones come in below. */
  function Rot(x: uint32, k: nat): uint32
    requires 0 < k < 32
  {
    RotBound(x, k);
    Swapped(x, Pow2(32 - k), Pow2(k))
  }

  lemma LowestBit(b: nat, n: nat)
    requires b < 2
    ensures (b + 2 * n) % 2 == b && (b + 2 * n) / 2 == n
  {
  }

  lemma {:induction false} XorTwice(x: nat, y: nat, n: nat)
    requires x < Pow2(n)
    ensures XorBits(XorBits(x, y, n), y, n) == x
  {
    if n > 0 {
      XorTwice(x / 2, y / 2, n - 1);
      LowestBit(if x % 2 != y % 2 then 1 else 0, XorBits(x / 2, y / 2, n - 1));
    }
  }

  // ----- mixing

  /** One of the six steps of a mix, on the three words in turn. */
  function Step(s: State, k: nat): State
    requires 0 < k < 32
  {
    State(s.b, Plus(s.c, s.b), Xor(Minus(s.a, s.c), Rot(s.c, k)))
  }

  /** Undoes a step. */
  function Unstep(s: State, k: nat): State
    requires 0 < k < 32
  {
    var c := Minus(s.b, s.a);
    State(Plus(Xor(s.c, Rot(c, k)), c), s.a, c)
  }

  function Mix(s: State): State {
    Step(Step(Step(Step(Step(Step(s, 4), 6), 8), 16), 19), 4)
  }

  function Unmix(s: State): State {
    Unstep(Unstep(Unstep(Unstep(Unstep(Unstep(s, 4), 19), 16), 8), 6), 4)
  }

  lemma Subtracted(x: uint32, y: uint32)
    ensures Minus(Plus(x, y), y) == x && Plus(Minus(x, y), y) == x
  {
  }

  lemma XorCancels(x: uint32, y: uint32)
    ensures Xor(Xor(x, y), y) == x
  {
    WordSize();
    XorTwice(x, y, 32);
  }

  lemma StepReversible(s: State, k: nat)
    requires 0 < k < 32
    ensures Unstep(Step(s, k), k) == s && Step(Unstep(s, k), k) == s
  {
    hide Rot, Xor, Plus, Minus;
    var c := Minus(s.b, s.a);
    Subtracted(s.c, s.b);
    Subtracted(s.a, s.c);
    Subtracted(s.b, s.a);
    XorCancels(Minus(s.a, s.c), Rot(s.c, k));
    Subtracted(Xor(s.c, Rot(c, k)), c);
    XorCancels(s.c, Rot(c, k));
  }

  /** Mixing loses nothing: it can be undone, and reaches every state. */
  lemma MixReversible(s: State)
    ensures Unmix(Mix(s)) == s && Mix(Unmix(s)) == s
  {
    hide Step, Unstep;
    var s1 := Step(s, 4);
    var s2 := Step(s1, 6);
    var s3 := Step(s2, 8);
    var s4 := Step(s3, 16);
    var s5 := Step(s4, 19);
    StepReversible(s, 4);
    StepReversible(s1, 6);
    StepReversible(s2, 8);
    StepReversible(s3, 16);
    StepReversible(s4, 19);
    StepReversible(s5, 4);
    var u1 := Unstep(s, 4);
    var u2 := Unstep(u1, 19);
    var u3 := Unstep(u2, 16);
    var u4 := Unstep(u3, 8);
    var u5 := Unstep(u4, 6);
    StepReversible(u1, 19);
    StepReversible(u2, 16);
    StepReversible(u3, 8);
    StepReversible(u4, 6);
    StepReversible(u5, 4);
  }

  /** One of the seven steps of the final mixing, which changes the three words in turn. */
  function FinalStep(s: State, k: nat): State
    requires 0 < k < 32
  {
    State(s.b, Minus(Xor(s.c, s.b), Rot(s.b, k)), s.a)
  }

  /** Undoes a step. */
  function FinalUnstep(s: State, k: nat): State
    requires 0 < k < 32
  {
    State(s.c, s.a, Xor(Plus(s.b, Rot(s.a, k)), s.a))
  }

  /** The final mixing of three words into the last two. */
  function Final(s: State): State {
    var r := FinalStep(FinalStep(FinalStep(FinalStep(FinalStep(FinalStep(FinalStep(s, 14), 11), 25), 16), 4), 14), 24);
    State(r.c, r.a, r.b)
  }

  function Unfinal(s: State): State {
    var r := State(s.b, s.c, s.a);
    FinalUnstep(FinalUnstep(FinalUnstep(FinalUnstep(FinalUnstep(FinalUnstep(FinalUnstep(
      r, 24), 14), 4), 16), 25), 11), 14)
  }

  lemma FinalStepReversible(s: State, k: nat)
    requires 0 < k < 32
    ensures FinalUnstep(FinalStep(s, k), k) == s && FinalStep(FinalUnstep(s, k), k) == s
  {
    hide Rot, Xor, Plus, Minus;
    Subtracted(Xor(s.c, s.b), Rot(s.b, k));
    XorCancels(s.c, s.b);
    Subtracted(s.b, Rot(s.a, k));
    XorCancels(Plus(s.b, Rot(s.a, k)), s.a);
  }

  /** The final mixing too can be undone, and reaches every state. */
  lemma FinalReversible(s: State)
    ensures Unfinal(Final(s)) == s && Final(Unfinal(s)) == s
  {
    hide FinalStep, FinalUnstep;
    var s1 := FinalStep(s, 14);
    var s2 := FinalStep(s1, 11);
    var s3 := FinalStep(s2, 25);
    var s4 := FinalStep(s3, 16);
    var s5 := FinalStep(s4, 4);
    var s6 := FinalStep(s5, 14);
    FinalStepReversible(s, 14);
    FinalStepReversible(s1, 11);
    FinalStepReversible(s2, 25);
    FinalStepReversible(s3, 16);
    FinalStepReversible(s4, 4);
    FinalStepReversible(s5, 14);
    FinalStepReversible(s6, 24);
    var u0 := State(s.b, s.c, s.a);
    var u1 := FinalUnstep(u0, 24);
    var u2 := FinalUnstep(u1, 14);
    var u3 := FinalUnstep(u2, 4);
    var u4 := FinalUnstep(u3, 16);
    var u5 := FinalUnstep(u4, 25);
    var u6 := FinalUnstep(u5, 11);
    FinalStepReversible(u0, 24);
    FinalStepReversible(u1, 14);
    FinalStepReversible(u2, 4);
    FinalStepReversible(u3, 16);
    FinalStepReversible(u4, 25);
    FinalStepReversible(u5, 11);
    FinalStepReversible(u6, 14);
  }

  // ----- the hash of a key

  /** Byte `i` of a key that zeros follow. */
  function ByteOf(key: seq<byte>, i: nat): byte {
    if i < |key| then key[i] else 0
  }

  /** A byte moved up by one, two or three bytes. */
  function Shl(b: byte, places: nat): uint32
    requires places == 8 || places == 16 || places == 24
  {
    var n: nat := b;
    if places == 8 then 0x100 * n else if places == 16 then 0x1_0000 * n else 0x100_0000 * n
  }

  /** Four bytes, the lowest first. */
  function Compose(b0: byte, b1: byte, b2: byte, b3: byte): uint32 {
    var n: nat := b0;
    n + Shl(b1, 8) + Shl(b2, 16) + Shl(b3, 24)
  }

  /** The word at byte `i` of a key that zeros follow. */
  function WordOf(key: seq<byte>, i: nat): uint32 {
    Compose(ByteOf(key, i), ByteOf(key, i + 1), ByteOf(key, i + 2), ByteOf(key, i + 3))
  }

  /** The state with the first twelve bytes of a key added. */
  function Absorb(s: State, key: seq<byte>): State {
    State(Plus(s.a, WordOf(key, 0)), Plus(s.b, WordOf(key, 4)), Plus(s.c, WordOf(key, 8)))
  }

  /** Blocks of twelve bytes are mixed; the last one, of one to twelve, gets the final mixing. */
  function HashFrom(s: State, key: seq<byte>): State
    decreases |key|
  {
    if key == [] then s
    else if |key| <= 12 then Final(Absorb(s, key))
    else HashFrom(Mix(Absorb(s, key)), key[12..])
  }

  function Start(length: nat, pc: uint32, pb: uint32): State {
    var a := Plus(Plus(0xdeadbeef, length % UINT32_LIMIT), pc);
    State(a, a, Plus(a, pb))
  }

  /** The two hash words of a key. */
  function Hash(key: seq<byte>, pc: uint32, pb: uint32): (uint32, uint32) {
    var s := HashFrom(Start(|key|, pc, pb), key);
    (s.c, s.b)
  }

  // ----- loads of a little-endian machine

  function Load16(mem: seq<byte>, i: nat): uint32
    requires i + 2 <= |mem|
  {
    Compose(mem[i], mem[i + 1], 0, 0)
  }

  function Load32(mem: seq<byte>, i: nat): uint32
    requires i + 4 <= |mem|
  {
    Compose(mem[i], mem[i + 1], mem[i + 2], mem[i + 3])
  }

  /** The key lies at address `k`. */
  predicate KeyAt(mem: seq<byte>, k: nat, key: seq<byte>) {
    k + |key| <= |mem| && mem[k..k + |key|] == key
  }

  lemma ByteAt(mem: seq<byte>, k: nat, key: seq<byte>, i: nat)
    requires KeyAt(mem, k, key) && i < |key|
    ensures mem[k + i] == key[i] == ByteOf(key, i)
  {
  }

  /** A whole word of the key, read at once or in halves. */
  lemma WordLoaded(mem: seq<byte>, k: nat, key: seq<byte>, i: nat)
    requires KeyAt(mem, k, key) && i + 4 <= |key|
    ensures Load32(mem, k + i) == WordOf(key, i)
    ensures Load16(mem, k + i) + 0x1_0000 * Load16(mem, k + i + 2) == WordOf(key, i)
  {
    ByteAt(mem, k, key, i);
    ByteAt(mem, k, key, i + 1);
    ByteAt(mem, k, key, i + 2);
    ByteAt(mem, k, key, i + 3);
  }

  // Masking a word keeps its lowest bytes.

  lemma LowBitsStep(a: nat, p: nat, c: nat, n: nat)
    requires n > 0
    ensures LowBits(a + 2 * p * c, n) == a % 2 + 2 * LowBits(a / 2 + p * c, n - 1)
  {
    var q := p * c;
    assert a + 2 * p * c == a % 2 + 2 * (a / 2 + q);
    LowestBit(a % 2, a / 2 + q);
  }

  lemma {:induction false} LowBitsOfSum(a: nat, c: nat, n: nat)
    requires a < Pow2(n)
    ensures LowBits(a + Pow2(n) * c, n) == a
  {
    if n > 0 {
      hide LowBits;
      var p := Pow2(n - 1);
      assert Pow2(n) == 2 * p;
      LowBitsStep(a, p, c, n);
      LowBitsOfSum(a / 2, c, n - 1);
    }
  }

  lemma Composed(b0: byte, b1: byte, b2: byte, b3: byte, n0: nat, n1: nat, n2: nat, n3: nat)
    requires n0 == b0 && n1 == b1 && n2 == b2 && n3 == b3
    ensures Compose(b0, b1, b2, b3) == n0 + 0x100 * (n1 + 0x100 * n2 + 0x1_0000 * n3)
    ensures Compose(b0, b1, b2, b3) == n0 + 0x100 * n1 + 0x1_0000 * (n2 + 0x100 * n3)
    ensures Compose(b0, b1, b2, b3) == n0 + 0x100 * n1 + 0x1_0000 * n2 + 0x100_0000 * n3
  {
  }

  lemma Mask8(b0: byte, b1: byte, b2: byte, b3: byte)
    ensures LowBits(Compose(b0, b1, b2, b3), 8) == Compose(b0, 0, 0, 0)
  {
    hide Compose, LowBits;
    var n0: nat, n1: nat, n2: nat, n3: nat := b0, b1, b2, b3;
    Composed(b0, b1, b2, b3, n0, n1, n2, n3);
    Composed(b0, 0, 0, 0, n0, 0, 0, 0);
    ByteSizes();
    LowBitsOfSum(n0, n1 + 0x100 * n2 + 0x1_0000 * n3, 8);
  }

  lemma Mask16(b0: byte, b1: byte, b2: byte, b3: byte)
    ensures LowBits(Compose(b0, b1, b2, b3), 16) == Compose(b0, b1, 0, 0)
  {
    hide Compose, LowBits;
    var n0: nat, n1: nat, n2: nat, n3: nat := b0, b1, b2, b3;
    Composed(b0, b1, b2, b3, n0, n1, n2, n3);
    Composed(b0, b1, 0, 0, n0, n1, 0, 0);
    ByteSizes();
    LowBitsOfSum(n0 + 0x100 * n1, n2 + 0x100 * n3, 16);
  }

  lemma Mask24(b0: byte, b1: byte, b2: byte, b3: byte)
    ensures LowBits(Compose(b0, b1, b2, b3), 24) == Compose(b0, b1, b2, 0)
  {
    hide Compose, LowBits;
    var n0: nat, n1: nat, n2: nat, n3: nat := b0, b1, b2, b3;
    Composed(b0, b1, b2, b3, n0, n1, n2, n3);
    Composed(b0, b1, b2, 0, n0, n1, n2, 0);
    ByteSizes();
    LowBitsOfSum(n0 + 0x100 * n1 + 0x1_0000 * n2, n3, 24);
  }

  /** The last bytes of the key, masked out of a word that may reach beyond it. */
  lemma TailMasked(mem: seq<byte>, k: nat, key: seq<byte>, i: nat)
    requires KeyAt(mem, k, key) && i < |key| && k + i + 4 <= |mem|
    ensures i + 1 == |key| ==> LowBits(Load32(mem, k + i), 8) == WordOf(key, i)
    ensures i + 2 == |key| ==> LowBits(Load32(mem, k + i), 16) == WordOf(key, i)
    ensures i + 3 == |key| ==> LowBits(Load32(mem, k + i), 24) == WordOf(key, i)
  {
    hide Compose, LowBits;
    var at := k + i;
    Mask8(mem[at], mem[at + 1], mem[at + 2], mem[at + 3]);
    Mask16(mem[at], mem[at + 1], mem[at + 2], mem[at + 3]);
    Mask24(mem[at], mem[at + 1], mem[at + 2], mem[at + 3]);
    ByteAt(mem, k, key, i);
    if i + 1 < |key| {
      ByteAt(mem, k, key, i + 1);
    }
    if i + 2 < |key| {
      ByteAt(mem, k, key, i + 2);
    }
  }

  /** The last bytes of the key, read in pieces. */
  lemma TailInPieces(mem: seq<byte>, k: nat, key: seq<byte>, i: nat)
    requires KeyAt(mem, k, key) && i < |key|
    ensures i + 1 == |key| ==> mem[k + i] == WordOf(key, i)
    ensures i + 2 == |key| ==> Load16(mem, k + i) == WordOf(key, i)
    ensures i + 3 == |key| ==> Shl(mem[k + i + 2], 16) + Load16(mem, k + i) == WordOf(key, i)
  {
    ByteAt(mem, k, key, i);
    if i + 1 < |key| {
      ByteAt(mem, k, key, i + 1);
    }
    if i + 2 < |key| {
      ByteAt(mem, k, key, i + 2);
    }
  }

  lemma BeyondKey(key: seq<byte>, i: nat)
    requires i >= |key|
    ensures WordOf(key, i) == 0
  {
  }

  // ----- 32-bit reads

  /** The last block, of up to twelve bytes, in whole words with the excess masked off. */
  method WordTail(mem: seq<byte>, k: nat, length: nat, s: State, ghost key: seq<byte>) returns (r: State)
    requires KeyAt(mem, k, key) && 0 < length == |key| <= 12 && WordsReadable(mem, k, length)
    ensures r == Absorb(s, key)
  {
    hide Load32, WordOf, KeyAt, Compose, LowBits;
    var a, b, c := s.a, s.b, s.c;
    if length >= 4 {
      WordLoaded(mem, k, key, 0);
    } else {
      TailMasked(mem, k, key, 0);
      BeyondKey(key, 4);
    }
    if length >= 8 {
      WordLoaded(mem, k, key, 4);
    } else if length > 4 {
      TailMasked(mem, k, key, 4);
      BeyondKey(key, 8);
    } else if length == 4 {
      BeyondKey(key, 4);
      BeyondKey(key, 8);
    } else {
      BeyondKey(key, 8);
    }
    if length == 12 {
      WordLoaded(mem, k, key, 8);
    } else if length > 8 {
      TailMasked(mem, k, key, 8);
    } else {
      BeyondKey(key, 8);
    }
    PlusZero(b);
    PlusZero(c);
    match length {
    case 12 =>
      c := Plus(c, Load32(mem, k + 8));
      b := Plus(b, Load32(mem, k + 4));
      a := Plus(a, Load32(mem, k));
    case 11 =>
      c := Plus(c, LowBits(Load32(mem, k + 8), 24));
      b := Plus(b, Load32(mem, k + 4));
      a := Plus(a, Load32(mem, k));
    case 10 =>
      c := Plus(c, LowBits(Load32(mem, k + 8), 16));
      b := Plus(b, Load32(mem, k + 4));
      a := Plus(a, Load32(mem, k));
    case 9 =>
      c := Plus(c, LowBits(Load32(mem, k + 8), 8));
      b := Plus(b, Load32(mem, k + 4));
      a := Plus(a, Load32(mem, k));
    case 8 =>
      b := Plus(b, Load32(mem, k + 4));
      a := Plus(a, Load32(mem, k));
    case 7 =>
      b := Plus(b, LowBits(Load32(mem, k + 4), 24));
      a := Plus(a, Load32(mem, k));
    case 6 =>
      b := Plus(b, LowBits(Load32(mem, k + 4), 16));
      a := Plus(a, Load32(mem, k));
    case 5 =>
      b := Plus(b, LowBits(Load32(mem, k + 4), 8));
      a := Plus(a, Load32(mem, k));
    case 4 => a := Plus(a, Load32(mem, k));
    case 3 => a := Plus(a, LowBits(Load32(mem, k), 24));
    case 2 => a := Plus(a, LowBits(Load32(mem, k), 16));
    case 1 => a := Plus(a, LowBits(Load32(mem, k), 8));
    }
    return State(a, b, c);
  }

  lemma PlusZero(x: uint32)
    ensures Plus(x, 0) == x
  {
  }

  /** The words that hold the bytes of the key can be read whole. */
  predicate WordsReadable(mem: seq<byte>, k: nat, length: nat) {
    k + (length + 3) / 4 * 4 <= |mem|
  }

  /** Reads words; the bytes after the key do not matter. */
  method HashWords(mem: seq<byte>, at: nat, size: nat, s: State, ghost key: seq<byte>) returns (r: State)
    requires KeyAt(mem, at, key) && size == |key| && WordsReadable(mem, at, size)
    ensures r == HashFrom(s, key)
  {
    hide Mix, Final, WordOf, Load32, Plus;
    var k, length := at, size;
    ghost var rest := key;
    r := s;
    while length > 12
      invariant 0 <= k && length == |rest| && KeyAt(mem, k, rest) && WordsReadable(mem, k, length)
      invariant HashFrom(r, rest) == HashFrom(s, key) && (key != [] ==> rest != [])
    {
      WordLoaded(mem, k, rest, 0);
      WordLoaded(mem, k, rest, 4);
      WordLoaded(mem, k, rest, 8);
      r := State(Plus(r.a, Load32(mem, k)), Plus(r.b, Load32(mem, k + 4)), Plus(r.c, Load32(mem, k + 8)));
      r := Mix(r);
      NextBlock(mem, k, rest);
      length := length - 12;
      k := k + 12;
      rest := rest[12..];
    }
    if length == 0 {
      return r;
    }
    r := WordTail(mem, k, length, r, rest);
    r := Final(r);
  }

  lemma NextBlock(mem: seq<byte>, k: nat, key: seq<byte>)
    requires KeyAt(mem, k, key) && |key| > 12
    ensures KeyAt(mem, k + 12, key[12..])
    ensures WordsReadable(mem, k, |key|) ==> WordsReadable(mem, k + 12, |key| - 12)
  {
    assert mem[k + 12..k + |key|] == mem[k..k + |key|][12..];
  }

  // ----- 16-bit reads

  function Halves(mem: seq<byte>, i: nat): uint32
    requires i + 4 <= |mem|
  {
    Load16IsSmall(mem, i + 2);
    var high: nat := Load16(mem, i + 2);
    Plus(Load16(mem, i), 0x1_0000 * high)
  }

  lemma Load16IsSmall(mem: seq<byte>, i: nat)
    requires i + 2 <= |mem|
    ensures Load16(mem, i) < 0x1_0000
  {
  }

  lemma HalvesLoaded(mem: seq<byte>, k: nat, key: seq<byte>, i: nat)
    requires KeyAt(mem, k, key) && i + 4 <= |key|
    ensures k + i + 4 <= |mem| && Halves(mem, k + i) == WordOf(key, i)
  {
    WordLoaded(mem, k, key, i);
    hide WordOf, Load16;
  }

  /** Adding the pieces one after the other adds their sum. */
  lemma PlusTwice(x: uint32, y: uint32, z: uint32)
    requires y + z < UINT32_LIMIT
    ensures Plus(Plus(x, y), z) == Plus(x, y + z)
  {
  }

  /** Three bytes at the end of the key, the last one first. */
  lemma TailOfThree(mem: seq<byte>, k: nat, key: seq<byte>, i: nat, x: uint32)
    requires KeyAt(mem, k, key) && i + 3 == |key|
    ensures Plus(Plus(x, Shl(mem[k + i + 2], 16)), Load16(mem, k + i)) == Plus(x, WordOf(key, i))
  {
    TailInPieces(mem, k, key, i);
    PlusTwice(x, Shl(mem[k + i + 2], 16), Load16(mem, k + i));
  }

  /** The last block in half words and bytes; most cases fall through to the next. */
  method HalfTail(mem: seq<byte>, k: nat, length: nat, s: State, ghost key: seq<byte>) returns (r: State)
    requires KeyAt(mem, k, key) && 0 < length == |key| <= 12
    ensures r == Absorb(s, key)
  {
    hide Load16, WordOf, Compose, Halves, Plus;
    var a, b, c := s.a, s.b, s.c;
    PlusZero(b);
    PlusZero(c);
    if length == 12 {
      HalvesLoaded(mem, k, key, 0);
      HalvesLoaded(mem, k, key, 4);
      HalvesLoaded(mem, k, key, 8);
      c := Plus(c, Halves(mem, k + 8));
      b := Plus(b, Halves(mem, k + 4));
      a := Plus(a, Halves(mem, k));
    } else if length >= 10 {
      HalvesLoaded(mem, k, key, 0);
      HalvesLoaded(mem, k, key, 4);
      TailInPieces(mem, k, key, 8);
      if length >= 11 {
        TailOfThree(mem, k, key, 8, c);
        c := Plus(c, Shl(mem[k + 10], 16));
      }
      c := Plus(c, Load16(mem, k + 8));
      b := Plus(b, Halves(mem, k + 4));
      a := Plus(a, Halves(mem, k));
    } else if length >= 8 {
      HalvesLoaded(mem, k, key, 0);
      HalvesLoaded(mem, k, key, 4);
      if length >= 9 {
        TailInPieces(mem, k, key, 8);
        c := Plus(c, mem[k + 8]);
      } else {
        BeyondKey(key, 8);
      }
      b := Plus(b, Halves(mem, k + 4));
      a := Plus(a, Halves(mem, k));
    } else if length >= 6 {
      HalvesLoaded(mem, k, key, 0);
      TailInPieces(mem, k, key, 4);
      BeyondKey(key, 8);
      if length >= 7 {
        TailOfThree(mem, k, key, 4, b);
        b := Plus(b, Shl(mem[k + 6], 16));
      }
      b := Plus(b, Load16(mem, k + 4));
      a := Plus(a, Halves(mem, k));
    } else if length >= 4 {
      HalvesLoaded(mem, k, key, 0);
      BeyondKey(key, 8);
      if length >= 5 {
        TailInPieces(mem, k, key, 4);
        b := Plus(b, mem[k + 4]);
      } else {
        BeyondKey(key, 4);
      }
      a := Plus(a, Halves(mem, k));
    } else {
      BeyondKey(key, 4);
      BeyondKey(key, 8);
      TailInPieces(mem, k, key, 0);
      if length >= 2 {
        if length >= 3 {
          TailOfThree(mem, k, key, 0, a);
          a := Plus(a, Shl(mem[k + 2], 16));
        }
        a := Plus(a, Load16(mem, k));
      } else {
        a := Plus(a, mem[k]);
      }
    }
    return State(a, b, c);
  }

  method HashHalves(mem: seq<byte>, at: nat, size: nat, s: State, ghost key: seq<byte>) returns (r: State)
    requires KeyAt(mem, at, key) && size == |key|
    ensures r == HashFrom(s, key)
  {
    hide Mix, Final, WordOf, Load16, Plus, Halves;
    var k, length := at, size;
    ghost var rest := key;
    r := s;
    while length > 12
      invariant 0 <= k && length == |rest| && KeyAt(mem, k, rest)
      invariant HashFrom(r, rest) == HashFrom(s, key) && (key != [] ==> rest != [])
    {
      HalvesLoaded(mem, k, rest, 0);
      HalvesLoaded(mem, k, rest, 4);
      HalvesLoaded(mem, k, rest, 8);
      r := State(Plus(r.a, Halves(mem, k)), Plus(r.b, Halves(mem, k + 4)), Plus(r.c, Halves(mem, k + 8)));
      r := Mix(r);
      NextBlock(mem, k, rest);
      length := length - 12;
      k := k + 12;
      rest := rest[12..];
    }
    if length == 0 {
      return r;
    }
    r := HalfTail(mem, k, length, r, rest);
    r := Final(r);
  }

  // ----- byte reads

  /** Up to four bytes added from the highest down, as the cases fall through. */
  method AddBytes(mem: seq<byte>, k: nat, i: nat, length: nat, x: uint32, ghost key: seq<byte>) returns (r: uint32)
    requires KeyAt(mem, k, key) && length == |key|
    ensures r == Plus(x, WordOf(key, i))
  {
    assert k + length <= |mem|;
    hide KeyAt, Plus;
    r := x;
    ghost var sum: uint32 := 0;
    PlusZero(x);
    if i + 4 <= length {
      ByteAt(mem, k, key, i + 3);
      PlusTwice(x, sum, Shl(mem[k + i + 3], 24));
      sum := Shl(mem[k + i + 3], 24);
      r := Plus(r, Shl(mem[k + i + 3], 24));
    }
    if i + 3 <= length {
      ByteAt(mem, k, key, i + 2);
      PlusTwice(x, sum, Shl(mem[k + i + 2], 16));
      sum := sum + Shl(mem[k + i + 2], 16);
      r := Plus(r, Shl(mem[k + i + 2], 16));
    }
    if i + 2 <= length {
      ByteAt(mem, k, key, i + 1);
      PlusTwice(x, sum, Shl(mem[k + i + 1], 8));
      sum := sum + Shl(mem[k + i + 1], 8);
      r := Plus(r, Shl(mem[k + i + 1], 8));
    }
    if i + 1 <= length {
      ByteAt(mem, k, key, i);
      PlusTwice(x, sum, mem[k + i]);
      sum := sum + mem[k + i];
      r := Plus(r, mem[k + i]);
    }
    assert sum == WordOf(key, i);
  }

  /** Four bytes added from the lowest up, as the blocks do. */
  method AddWord(mem: seq<byte>, k: nat, i: nat, x: uint32, ghost key: seq<byte>) returns (r: uint32)
    requires KeyAt(mem, k, key) && i + 4 <= |key|
    ensures r == Plus(x, WordOf(key, i))
  {
    ByteAt(mem, k, key, i);
    ByteAt(mem, k, key, i + 1);
    ByteAt(mem, k, key, i + 2);
    ByteAt(mem, k, key, i + 3);
    hide KeyAt, Plus;
    PlusTwice(x, mem[k + i], Shl(mem[k + i + 1], 8));
    PlusTwice(x, mem[k + i] + Shl(mem[k + i + 1], 8), Shl(mem[k + i + 2], 16));
    PlusTwice(x, mem[k + i] + Shl(mem[k + i + 1], 8) + Shl(mem[k + i + 2], 16), Shl(mem[k + i + 3], 24));
    r := Plus(x, mem[k + i]);
    r := Plus(r, Shl(mem[k + i + 1], 8));
    r := Plus(r, Shl(mem[k + i + 2], 16));
    r := Plus(r, Shl(mem[k + i + 3], 24));
  }

  method HashBytes(mem: seq<byte>, at: nat, size: nat, s: State, ghost key: seq<byte>) returns (r: State)
    requires KeyAt(mem, at, key) && size == |key|
    ensures r == HashFrom(s, key)
  {
    hide Mix, Final, WordOf, Plus;
    var k, length := at, size;
    ghost var rest := key;
    r := s;
    var a, b, c: uint32;
    while length > 12
      invariant 0 <= k && length == |rest| && KeyAt(mem, k, rest)
      invariant HashFrom(r, rest) == HashFrom(s, key) && (key != [] ==> rest != [])
    {
      a := AddWord(mem, k, 0, r.a, rest);
      b := AddWord(mem, k, 4, r.b, rest);
      c := AddWord(mem, k, 8, r.c, rest);
      r := Mix(State(a, b, c));
      NextBlock(mem, k, rest);
      length := length - 12;
      k := k + 12;
      rest := rest[12..];
    }
    if length == 0 {
      return r;
    }
    c := AddBytes(mem, k, 8, length, r.c, rest);
    b := AddBytes(mem, k, 4, length, r.b, rest);
    a := AddBytes(mem, k, 0, length, r.a, rest);
    r := Final(State(a, b, c));
  }

  // ----- the choice between them

  /** Whatever the alignment of the key and the byte order of the machine, the hash is that of
      the bytes of the key.  Memory ends on a word boundary. */
  method HashLittle2(mem: seq<byte>, key: nat, length: nat, littleEndian: bool, pc: uint32, pb: uint32)
    returns (pc': uint32, pb': uint32)
    requires key + length <= |mem| && |mem| % 4 == 0
    ensures (pc', pb') == Hash(mem[key..key + length], pc, pb)
  {
    hide HashFrom, Plus;
    ghost var bytes := mem[key..key + length];
    var a := Plus(Plus(0xdeadbeef, length % UINT32_LIMIT), pc);
    var s := State(a, a, Plus(a, pb));
    if littleEndian && key % 4 == 0 {
      WholeWords(|mem|, key, length);
      s := HashWords(mem, key, length, s, bytes);
    } else if littleEndian && key % 2 == 0 {
      s := HashHalves(mem, key, length, s, bytes);
    } else {
      s := HashBytes(mem, key, length, s, bytes);
    }
    pc', pb' := s.c, s.b;
  }

  lemma WholeWords(size: nat, k: nat, length: nat)
    requires size % 4 == 0 && k % 4 == 0 && k + length <= size
    ensures k + (length + 3) / 4 * 4 <= size
  {
  }
}
