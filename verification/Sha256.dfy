/** SHA-256 of one block: the compression function and the three loop forms that compute it. */
module Sha256 {
  import opened Limbs
  import opened Bits

  // ---------- FIPS 180-4, sections 4.1.2, 4.2.2 and 5.3.3 ----------

  function Ch(x: Word, y: Word, z: Word): Word { Xor32(And32(x, y), And32(Not32(x), z)) }

  function Maj(x: Word, y: Word, z: Word): Word { Xor32(Xor32(And32(x, y), And32(x, z)), And32(y, z)) }

  function BigSigma0(x: Word): Word { Xor32(Xor32(Rotr(x, 2), Rotr(x, 13)), Rotr(x, 22)) }

  function BigSigma1(x: Word): Word { Xor32(Xor32(Rotr(x, 6), Rotr(x, 11)), Rotr(x, 25)) }

  function SmallSigma0(x: Word): Word { Xor32(Xor32(Rotr(x, 7), Rotr(x, 18)), Shr32(x, 3)) }

  function SmallSigma1(x: Word): Word { Xor32(Xor32(Rotr(x, 17), Rotr(x, 19)), Shr32(x, 10)) }

  const CONSTANTS_0: seq<Word> := [
    0x428a2f98, 0x71374491, 0xb5c0fbcf, 0xe9b5dba5, 0x3956c25b, 0x59f111f1, 0x923f82a4, 0xab1c5ed5,
    0xd807aa98, 0x12835b01, 0x243185be, 0x550c7dc3, 0x72be5d74, 0x80deb1fe, 0x9bdc06a7, 0xc19bf174]

  const CONSTANTS_16: seq<Word> := [
    0xe49b69c1, 0xefbe4786, 0x0fc19dc6, 0x240ca1cc, 0x2de92c6f, 0x4a7484aa, 0x5cb0a9dc, 0x76f988da,
    0x983e5152, 0xa831c66d, 0xb00327c8, 0xbf597fc7, 0xc6e00bf3, 0xd5a79147, 0x06ca6351, 0x14292967]

  const CONSTANTS_32: seq<Word> := [
    0x27b70a85, 0x2e1b2138, 0x4d2c6dfc, 0x53380d13, 0x650a7354, 0x766a0abb, 0x81c2c92e, 0x92722c85,
    0xa2bfe8a1, 0xa81a664b, 0xc24b8b70, 0xc76c51a3, 0xd192e819, 0xd6990624, 0xf40e3585, 0x106aa070]

  const CONSTANTS_48: seq<Word> := [
    0x19a4c116, 0x1e376c08, 0x2748774c, 0x34b0bcb5, 0x391c0cb3, 0x4ed8aa4a, 0x5b9cca4f, 0x682e6ff3,
    0x748f82ee, 0x78a5636f, 0x84c87814, 0x8cc70208, 0x90befffa, 0xa4506ceb, 0xbef9a3f7, 0xc67178f2]

  const K256: seq<Word> := CONSTANTS_0 + CONSTANTS_16 + CONSTANTS_32 + CONSTANTS_48

  function K(j: nat): Word
    requires j < 64
  {
    K256[j]
  }

  const INITIAL: seq<Word> := [
    0x6a09e667, 0xbb67ae85, 0x3c6ef372, 0xa54ff53a, 0x510e527f, 0x9b05688c, 0x1f83d9ab, 0x5be0cd19]

  /** Word k holds the first 32 fractional bits of the square root of p, whose whole part is a. */
  ghost predicate SquareRoot(k: Word, p: nat, a: nat)
  {
    var x := a * BASE + k;
    x * x <= p * BASE * BASE < (x + 1) * (x + 1)
  }

  /** Word k holds the first 32 fractional bits of the cube root of p, whose whole part is a. */
  ghost predicate CubeRoot(k: Word, p: nat, a: nat)
  {
    var x := a * BASE + k;
    x * x * x <= p * BASE * BASE * BASE < (x + 1) * (x + 1) * (x + 1)
  }

  /** The chaining value starts from the square roots of the first eight primes. */
  lemma InitialIsRoots()
    ensures SquareRoot(INITIAL[0], 2, 1) && SquareRoot(INITIAL[1], 3, 1)
    ensures SquareRoot(INITIAL[2], 5, 2) && SquareRoot(INITIAL[3], 7, 2)
    ensures SquareRoot(INITIAL[4], 11, 3) && SquareRoot(INITIAL[5], 13, 3)
    ensures SquareRoot(INITIAL[6], 17, 4) && SquareRoot(INITIAL[7], 19, 4)
  {}

  /** Round constants 0 to 7 are the cube roots of the primes from 2 to 19. */
  lemma RoundConstants0()
    ensures CubeRoot(K(0), 2, 1) && CubeRoot(K(1), 3, 1) && CubeRoot(K(2), 5, 1) && CubeRoot(K(3), 7, 1)
    ensures CubeRoot(K(4), 11, 2) && CubeRoot(K(5), 13, 2) && CubeRoot(K(6), 17, 2) && CubeRoot(K(7), 19, 2)
  {}

  /** Round constants 8 to 15 are the cube roots of the primes from 23 to 53. */
  lemma RoundConstants8()
    ensures CubeRoot(K(8), 23, 2) && CubeRoot(K(9), 29, 3) && CubeRoot(K(10), 31, 3) && CubeRoot(K(11), 37, 3)
    ensures CubeRoot(K(12), 41, 3) && CubeRoot(K(13), 43, 3) && CubeRoot(K(14), 47, 3) && CubeRoot(K(15), 53, 3)
  {}

  /** Round constants 16 to 23 are the cube roots of the primes from 59 to 89. */
  lemma RoundConstants16()
    ensures CubeRoot(K(16), 59, 3) && CubeRoot(K(17), 61, 3) && CubeRoot(K(18), 67, 4) && CubeRoot(K(19), 71, 4)
    ensures CubeRoot(K(20), 73, 4) && CubeRoot(K(21), 79, 4) && CubeRoot(K(22), 83, 4) && CubeRoot(K(23), 89, 4)
  {}

  /** Round constants 24 to 31 are the cube roots of the primes from 97 to 131. */
  lemma RoundConstants24()
    ensures CubeRoot(K(24), 97, 4) && CubeRoot(K(25), 101, 4) && CubeRoot(K(26), 103, 4) && CubeRoot(K(27), 107, 4)
    ensures CubeRoot(K(28), 109, 4) && CubeRoot(K(29), 113, 4) && CubeRoot(K(30), 127, 5) && CubeRoot(K(31), 131, 5)
  {}

  /** Round constants 32 to 39 are the cube roots of the primes from 137 to 173. */
  lemma RoundConstants32()
    ensures CubeRoot(K(32), 137, 5) && CubeRoot(K(33), 139, 5) && CubeRoot(K(34), 149, 5) && CubeRoot(K(35), 151, 5)
    ensures CubeRoot(K(36), 157, 5) && CubeRoot(K(37), 163, 5) && CubeRoot(K(38), 167, 5) && CubeRoot(K(39), 173, 5)
  {}

  /** Round constants 40 to 47 are the cube roots of the primes from 179 to 223. */
  lemma RoundConstants40()
    ensures CubeRoot(K(40), 179, 5) && CubeRoot(K(41), 181, 5) && CubeRoot(K(42), 191, 5) && CubeRoot(K(43), 193, 5)
    ensures CubeRoot(K(44), 197, 5) && CubeRoot(K(45), 199, 5) && CubeRoot(K(46), 211, 5) && CubeRoot(K(47), 223, 6)
  {}

  /** Round constants 48 to 55 are the cube roots of the primes from 227 to 263. */
  lemma RoundConstants48()
    ensures CubeRoot(K(48), 227, 6) && CubeRoot(K(49), 229, 6) && CubeRoot(K(50), 233, 6) && CubeRoot(K(51), 239, 6)
    ensures CubeRoot(K(52), 241, 6) && CubeRoot(K(53), 251, 6) && CubeRoot(K(54), 257, 6) && CubeRoot(K(55), 263, 6)
  {}

  /** Round constants 56 to 63 are the cube roots of the primes from 269 to 311. */
  lemma RoundConstants56()
    ensures CubeRoot(K(56), 269, 6) && CubeRoot(K(57), 271, 6) && CubeRoot(K(58), 277, 6) && CubeRoot(K(59), 281, 6)
    ensures CubeRoot(K(60), 283, 6) && CubeRoot(K(61), 293, 6) && CubeRoot(K(62), 307, 6) && CubeRoot(K(63), 311, 6)
  {}

  /** The six functions bit by bit: a choice, a majority, and the parity of three bits that rotate or fall off. */
  lemma FunctionsByBit(x: Word, y: Word, z: Word, i: nat)
    requires i < 32
    ensures Bit(Ch(x, y, z), i) == if Bit(x, i) == 1 then Bit(y, i) else Bit(z, i)
    ensures Bit(Maj(x, y, z), i) == if Bit(x, i) + Bit(y, i) + Bit(z, i) >= 2 then 1 else 0
    ensures Bit(BigSigma0(x), i) == (Bit(x, (i + 2) % 32) + Bit(x, (i + 13) % 32) + Bit(x, (i + 22) % 32)) % 2
    ensures Bit(BigSigma1(x), i) == (Bit(x, (i + 6) % 32) + Bit(x, (i + 11) % 32) + Bit(x, (i + 25) % 32)) % 2
    ensures Bit(SmallSigma0(x), i) == (Bit(x, (i + 7) % 32) + Bit(x, (i + 18) % 32) + Bit(x, i + 3)) % 2
    ensures Bit(SmallSigma1(x), i) == (Bit(x, (i + 17) % 32) + Bit(x, (i + 19) % 32) + Bit(x, i + 10)) % 2
  {
    hide Bit, Xor, And, Rotr, Shr32, Not32;
    ChBit(x, y, z, i);
    MajBit(x, y, z, i);
    Parity(Rotr(x, 2), Rotr(x, 13), Rotr(x, 22), i);
    Parity(Rotr(x, 6), Rotr(x, 11), Rotr(x, 25), i);
    Parity(Rotr(x, 7), Rotr(x, 18), Shr32(x, 3), i);
    Parity(Rotr(x, 17), Rotr(x, 19), Shr32(x, 10), i);
    RotrBit(x, 2, i);
    RotrBit(x, 13, i);
    RotrBit(x, 22, i);
    RotrBit(x, 6, i);
    RotrBit(x, 11, i);
    RotrBit(x, 25, i);
    RotrBit(x, 7, i);
    RotrBit(x, 18, i);
    RotrBit(x, 17, i);
    RotrBit(x, 19, i);
    ShrBit(x, 3, i);
    ShrBit(x, 10, i);
  }

  lemma Parity(x: Word, y: Word, z: Word, i: nat)
    ensures Bit(Xor32(Xor32(x, y), z), i) == (Bit(x, i) + Bit(y, i) + Bit(z, i)) % 2
  {
    hide Bit, Xor;
    XorBit(x, y, i);
    XorBit(Xor32(x, y), z, i);
  }

  lemma ChBit(x: Word, y: Word, z: Word, i: nat)
    requires i < 32
    ensures Bit(Ch(x, y, z), i) == if Bit(x, i) == 1 then Bit(y, i) else Bit(z, i)
  {
    hide Xor, And, Not32;
    AndBit(x, y, i);
    NotBit(x, i);
    AndBit(Not32(x), z, i);
    XorBit(And32(x, y), And32(Not32(x), z), i);
  }

  lemma MajBit(x: Word, y: Word, z: Word, i: nat)
    ensures Bit(Maj(x, y, z), i) == if Bit(x, i) + Bit(y, i) + Bit(z, i) >= 2 then 1 else 0
  {
    hide Xor, And;
    AndBit(x, y, i);
    AndBit(x, z, i);
    AndBit(y, z, i);
    Parity(And32(x, y), And32(x, z), And32(y, z), i);
  }

  // ---------- FIPS 180-4, section 6.2.2: one block ----------

  datatype Regs = Regs(a: Word, b: Word, c: Word, d: Word, e: Word, f: Word, g: Word, h: Word)

  /** A schedule word from the ones 2, 7, 15 and 16 places before it. */
  function Expand(w2: Word, w7: Word, w15: Word, w16: Word): Word
  {
    Plus(Plus(Plus(SmallSigma1(w2), w7), SmallSigma0(w15)), w16)
  }

  /** The message schedule, all 64 words of it. */
  function Schedule(m: seq<Word>, t: nat): Word
    requires |m| == 16
  {
    if t < 16 then m[t]
    else Expand(Schedule(m, t - 2), Schedule(m, t - 7), Schedule(m, t - 15), Schedule(m, t - 16))
  }

  function Temp1(r: Regs, k: Word, w: Word): Word 
  {
    Plus(Plus(Plus(Plus(r.h, BigSigma1(r.e)), Ch(r.e, r.f, r.g)), k), w)
  }

  function Temp2(r: Regs): Word { Plus(BigSigma0(r.a), Maj(r.a, r.b, r.c)) }

  function Round(r: Regs, k: Word, w: Word): Regs
  {
    Regs(Plus(Temp1(r, k, w), Temp2(r)), r.a, r.b, r.c, Plus(r.d, Temp1(r, k, w)), r.e, r.f, r.g)
  }

  function Rounds(r: Regs, m: seq<Word>, n: nat): Regs
    requires |m| == 16 && n <= 64
  {
    if n == 0 then r else Round(Rounds(r, m, n - 1), K(n - 1), Schedule(m, n - 1))
  }

  function Load(h: seq<Word>): Regs
    requires |h| == 8
  {
    Regs(h[0], h[1], h[2], h[3], h[4], h[5], h[6], h[7])
  }

  function Reg(r: Regs, i: nat): Word
    requires i < 8
  {
    [r.a, r.b, r.c, r.d, r.e, r.f, r.g, r.h][i]
  }

  function Add(h: seq<Word>, r: Regs): (s: seq<Word>)
    requires |h| == 8
    ensures |s| == 8
  {
    seq(8, i requires 0 <= i < 8 => Plus(h[i], Reg(r, i)))
  }

  function Compress(h: seq<Word>, m: seq<Word>): (s: seq<Word>)
    requires |h| == 8 && |m| == 16
    ensures |s| == 8
  {
    seq(8, i requires 0 <= i < 8 => Plus(h[i], Reg(Rounds(Load(h), m, 64), i)))
  }

  lemma CompressIs(h: seq<Word>, m: seq<Word>, r: Regs)
    requires |h| == 8 && |m| == 16 && r == Rounds(Load(h), m, 64)
    ensures Compress(h, m) == Add(h, r)
  {
    hide Plus, Reg, Rounds;
  }

  // ---------- The rolling schedule ----------

  /** The sixteen words hold the last sixteen schedule entries before j, each at its index modulo 16. */
  ghost predicate Window(m: seq<Word>, w: seq<Word>, j: nat)
    requires |m| == 16 && |w| == 16 && j >= 16
  {
    forall k :: j - 16 <= k < j ==> w[k % 16] == Schedule(m, k)
  }

  function Next(w: seq<Word>, j: nat): Word
    requires |w| == 16
  {
    Expand(w[(j + 14) % 16], w[(j + 9) % 16], w[(j + 1) % 16], w[j % 16])
  }

  lemma Wraps(j: nat)
    requires j >= 16
    ensures (j + 14) % 16 == (j - 2) % 16 && (j + 9) % 16 == (j - 7) % 16 && (j + 1) % 16 == (j - 15) % 16
    ensures j % 16 == (j - 16) % 16
  {}

  lemma NextIsSchedule(m: seq<Word>, w: seq<Word>, j: nat)
    requires |m| == 16 && |w| == 16 && j >= 16 && Window(m, w, j)
    ensures Next(w, j) == Schedule(m, j)
  {
    hide Expand;
    Wraps(j);
    assert w[(j - 2) % 16] == Schedule(m, j - 2);
    assert w[(j - 7) % 16] == Schedule(m, j - 7);
    assert w[(j - 15) % 16] == Schedule(m, j - 15);
    assert w[(j - 16) % 16] == Schedule(m, j - 16);
  }

  lemma WindowSlides(m: seq<Word>, w: seq<Word>, j: nat)
    requires |m| == 16 && |w| == 16 && j >= 16 && Window(m, w, j)
    ensures Window(m, w[j % 16 := Next(w, j)], j + 1)
  {
    hide Schedule, Next;
    NextIsSchedule(m, w, j);
    var v := w[j % 16 := Next(w, j)];
    forall k | j + 1 - 16 <= k < j + 1
      ensures v[k % 16] == Schedule(m, k)
    {
      if k < j {
        assert k % 16 != j % 16;
        assert w[k % 16] == Schedule(m, k);
      }
    }
  }

  method Roll(w: array<Word>, j: nat)
    requires w.Length == 16
    modifies w
    ensures w[..] == old(w[..])[j % 16 := Next(old(w[..]), j)]
  {
    hide Plus, SmallSigma0, SmallSigma1;
    var s0 := SmallSigma0(w[(j + 1) % 16]);
    var s1 := SmallSigma1(w[(j + 14) % 16]);
    Regroup(w[j % 16], s1, w[(j + 9) % 16], s0);
    w[j % 16] := Plus(w[j % 16], Plus(Plus(s1, w[(j + 9) % 16]), s0));
  }

  lemma Regroup(x: Word, s1: Word, y: Word, s0: Word)
    ensures Plus(x, Plus(Plus(s1, y), s0)) == Plus(Plus(Plus(s1, y), s0), x)
  {}

  method Step(r: Regs, k: Word, w: Word) returns (s: Regs)
    ensures s == Round(r, k, w)
  {
    hide Plus, BigSigma0, BigSigma1, Ch, Maj;
    var t1 := Plus(Plus(Plus(Plus(r.h, BigSigma1(r.e)), Ch(r.e, r.f, r.g)), k), w);
    var t2 := Plus(BigSigma0(r.a), Maj(r.a, r.b, r.c));
    s := Regs(Plus(t1, t2), r.a, r.b, r.c, Plus(r.d, t1), r.e, r.f, r.g);
  }

  /** One block, with sixteen words of schedule; the output may be the state or the data buffer itself. */
  method Transform(stateIn: array<Word>, data: array<Word>, stateOut: array<Word>)
    requires stateIn.Length == 8 && data.Length == 16 && stateOut.Length >= 8
    modifies stateOut
    ensures stateOut[..8] == Compress(old(stateIn[..]), old(data[..]))
    ensures stateOut[8..] == old(stateOut[8..])
  {
    hide Rounds, Plus, Add, Compress, Window;
    ghost var h, m := stateIn[..], data[..];
    var r := Regs(stateIn[0], stateIn[1], stateIn[2], stateIn[3], stateIn[4], stateIn[5], stateIn[6], stateIn[7]);
    var w := new Word[16](_ => 0);
    r := FirstRounds(data, w, r);
    WindowOpens(m, w[..]);
    r := LaterRounds(m, w, Load(h), r);
    assert stateIn[..] == h;
    CompressIs(h, m, r);
    Store(stateIn, r, stateOut);
  }

  method FirstRounds(data: array<Word>, w: array<Word>, r0: Regs) returns (r: Regs)
    requires data.Length == 16 && w.Length == 16 && data != w
    modifies w
    ensures w[..] == data[..] && r == Rounds(r0, data[..], 16)
  {
    hide Schedule, K, Round;
    r := r0;
    var j := 0;
    while j < 16
      invariant 0 <= j <= 16 && w[..j] == data[..j]
      invariant r == Rounds(r0, data[..], j)
    {
      w[j] := data[j];
      FirstSixteen(data[..], j);
      r := Step(r, K(j), w[j]);
      j := j + 1;
    }
  }

  method LaterRounds(ghost m: seq<Word>, w: array<Word>, ghost r0: Regs, r16: Regs) returns (r: Regs)
    requires |m| == 16 && w.Length == 16 && Window(m, w[..], 16) && r16 == Rounds(r0, m, 16)
    modifies w
    ensures r == Rounds(r0, m, 64)
  {
    hide Schedule, Next, K, Round, Window;
    r := r16;
    var j := 16;
    while j < 64
      invariant 16 <= j <= 64 && Window(m, w[..], j)
      invariant r == Rounds(r0, m, j)
    {
      var x := Slide(m, w, j);
      r := Step(r, K(j), x);
      j := j + 1;
    }
  }

  // ---------- The unrolled form the build selects ----------

  /** A round that moves no register: the fourth and the eighth change, and the names rotate by one. */
  method UnrolledRound(a: Word, b: Word, c: Word, d: Word, e: Word, f: Word, g: Word, h: Word, k: Word, w: Word)
    returns (d': Word, h': Word)
    ensures Regs(h', a, b, c, d', e, f, g) == Round(Regs(a, b, c, d, e, f, g, h), k, w)
  {
    hide Plus, BigSigma0, BigSigma1, Ch, Maj;
    var t1 := Plus(Plus(Plus(Plus(h, BigSigma1(e)), Ch(e, f, g)), k), w);
    d' := Plus(d, t1);
    h' := Plus(Plus(t1, BigSigma0(a)), Maj(a, b, c));
    PlusRegroups(t1, BigSigma0(a), Maj(a, b, c));
  }

  /** Eight of the first sixteen rounds; every register ends under its own name again. */
  method EightFirst(data: array<Word>, w: array<Word>, j: nat, r: Regs, ghost r0: Regs) returns (s: Regs)
    requires data.Length == 16 && w.Length == 16 && data != w && j + 8 <= 16
    requires w[..j] == data[..j] && r == Rounds(r0, data[..], j)
    modifies w
    ensures w[..j + 8] == data[..j + 8] && s == Rounds(r0, data[..], j + 8)
  {
    hide Schedule, K, Round;
    ghost var m := data[..];
    var Regs(a, b, c, d, e, f, g, h) := r;
    var x;
    x := Fetch(data, w, j);
    d, h := UnrolledRound(a, b, c, d, e, f, g, h, K(j), x);
    assert Regs(h, a, b, c, d, e, f, g) == Rounds(r0, m, j + 1);
    x := Fetch(data, w, j + 1);
    c, g := UnrolledRound(h, a, b, c, d, e, f, g, K(j + 1), x);
    assert Regs(g, h, a, b, c, d, e, f) == Rounds(r0, m, j + 2);
    x := Fetch(data, w, j + 2);
    b, f := UnrolledRound(g, h, a, b, c, d, e, f, K(j + 2), x);
    assert Regs(f, g, h, a, b, c, d, e) == Rounds(r0, m, j + 3);
    x := Fetch(data, w, j + 3);
    a, e := UnrolledRound(f, g, h, a, b, c, d, e, K(j + 3), x);
    assert Regs(e, f, g, h, a, b, c, d) == Rounds(r0, m, j + 4);
    x := Fetch(data, w, j + 4);
    h, d := UnrolledRound(e, f, g, h, a, b, c, d, K(j + 4), x);
    assert Regs(d, e, f, g, h, a, b, c) == Rounds(r0, m, j + 5);
    x := Fetch(data, w, j + 5);
    g, c := UnrolledRound(d, e, f, g, h, a, b, c, K(j + 5), x);
    assert Regs(c, d, e, f, g, h, a, b) == Rounds(r0, m, j + 6);
    x := Fetch(data, w, j + 6);
    f, b := UnrolledRound(c, d, e, f, g, h, a, b, K(j + 6), x);
    assert Regs(b, c, d, e, f, g, h, a) == Rounds(r0, m, j + 7);
    x := Fetch(data, w, j + 7);
    e, a := UnrolledRound(b, c, d, e, f, g, h, a, K(j + 7), x);
    assert Regs(a, b, c, d, e, f, g, h) == Rounds(r0, m, j + 8);
    s := Regs(a, b, c, d, e, f, g, h);
  }

  method Fetch(data: array<Word>, w: array<Word>, j: nat) returns (x: Word)
    requires data.Length == 16 && w.Length == 16 && data != w && j < 16 && w[..j] == data[..j]
    modifies w
    ensures w[..j + 1] == data[..j + 1] && x == Schedule(data[..], j)
  {
    w[j] := data[j];
    x := w[j];
  }

  /** Eight of the other rounds. */
  method EightLater(ghost m: seq<Word>, w: array<Word>, j: nat, r: Regs, ghost r0: Regs) returns (s: Regs)
    requires |m| == 16 && w.Length == 16 && 16 <= j && j + 8 <= 64 && Window(m, w[..], j) && r == Rounds(r0, m, j)
    modifies w
    ensures Window(m, w[..], j + 8) && s == Rounds(r0, m, j + 8)
  {
    hide Schedule, K, Round, Window;
    var Regs(a, b, c, d, e, f, g, h) := r;
    var x;
    x := Slide(m, w, j);
    d, h := UnrolledRound(a, b, c, d, e, f, g, h, K(j), x);
    assert Regs(h, a, b, c, d, e, f, g) == Rounds(r0, m, j + 1);
    x := Slide(m, w, j + 1);
    c, g := UnrolledRound(h, a, b, c, d, e, f, g, K(j + 1), x);
    assert Regs(g, h, a, b, c, d, e, f) == Rounds(r0, m, j + 2);
    x := Slide(m, w, j + 2);
    b, f := UnrolledRound(g, h, a, b, c, d, e, f, K(j + 2), x);
    assert Regs(f, g, h, a, b, c, d, e) == Rounds(r0, m, j + 3);
    x := Slide(m, w, j + 3);
    a, e := UnrolledRound(f, g, h, a, b, c, d, e, K(j + 3), x);
    assert Regs(e, f, g, h, a, b, c, d) == Rounds(r0, m, j + 4);
    x := Slide(m, w, j + 4);
    h, d := UnrolledRound(e, f, g, h, a, b, c, d, K(j + 4), x);
    assert Regs(d, e, f, g, h, a, b, c) == Rounds(r0, m, j + 5);
    x := Slide(m, w, j + 5);
    g, c := UnrolledRound(d, e, f, g, h, a, b, c, K(j + 5), x);
    assert Regs(c, d, e, f, g, h, a, b) == Rounds(r0, m, j + 6);
    x := Slide(m, w, j + 6);
    f, b := UnrolledRound(c, d, e, f, g, h, a, b, K(j + 6), x);
    assert Regs(b, c, d, e, f, g, h, a) == Rounds(r0, m, j + 7);
    x := Slide(m, w, j + 7);
    e, a := UnrolledRound(b, c, d, e, f, g, h, a, K(j + 7), x);
    assert Regs(a, b, c, d, e, f, g, h) == Rounds(r0, m, j + 8);
    s := Regs(a, b, c, d, e, f, g, h);
  }

  method Slide(ghost m: seq<Word>, w: array<Word>, j: nat) returns (x: Word)
    requires |m| == 16 && w.Length == 16 && 16 <= j && Window(m, w[..], j)
    modifies w
    ensures Window(m, w[..], j + 1) && x == Schedule(m, j)
  {
    hide Schedule, Next, Window;
    NextIsSchedule(m, w[..], j);
    WindowSlides(m, w[..], j);
    Roll(w, j);
    x := w[j % 16];
  }

  /** The unrolled form of Transform. */
  method TransformUnrolled(stateIn: array<Word>, data: array<Word>, stateOut: array<Word>)
    requires stateIn.Length == 8 && data.Length == 16 && stateOut.Length >= 8
    modifies stateOut
    ensures stateOut[..8] == Compress(old(stateIn[..]), old(data[..]))
    ensures stateOut[8..] == old(stateOut[8..])
  {
    hide Rounds, Plus, Add, Compress, Window;
    ghost var h, m := stateIn[..], data[..];
    var r := Regs(stateIn[0], stateIn[1], stateIn[2], stateIn[3], stateIn[4], stateIn[5], stateIn[6], stateIn[7]);
    var w := new Word[16](_ => 0);
    RoundsZero(Load(h), m);
    var j := 0;
    while j < 16
      invariant 0 <= j <= 16 && j % 8 == 0 && w[..j] == m[..j] && r == Rounds(Load(h), m, j)
      modifies w
    {
      assert data[..] == m;
      r := EightFirst(data, w, j, r, Load(h));
      j := j + 8;
    }
    assert w[..] == m;
    WindowOpens(m, w[..]);
    while j < 64
      invariant 16 <= j <= 64 && j % 8 == 0 && Window(m, w[..], j) && r == Rounds(Load(h), m, j)
      modifies w
    {
      r := EightLater(m, w, j, r, Load(h));
      j := j + 8;
    }
    assert stateIn[..] == h;
    CompressIs(h, m, r);
    Store(stateIn, r, stateOut);
  }

  lemma RoundsZero(r: Regs, m: seq<Word>)
    requires |m| == 16
    ensures Rounds(r, m, 0) == r
  {}

  method Store(stateIn: array<Word>, r: Regs, stateOut: array<Word>)
    requires stateIn.Length == 8 && stateOut.Length >= 8
    modifies stateOut
    ensures stateOut[..8] == Add(old(stateIn[..]), r)
    ensures stateOut[8..] == old(stateOut[8..])
  {
    hide Plus, Reg;
    for i := 0 to 8
      invariant forall k :: 0 <= k < i ==> stateOut[k] == Plus(old(stateIn[k]), Reg(r, k))
      invariant forall k :: i <= k < stateOut.Length ==> stateOut[k] == old(stateOut[k])
      invariant forall k :: i <= k < 8 ==> stateIn[k] == old(stateIn[k])
    {
      stateOut[i] := Plus(stateIn[i], Reg(r, i));
    }
  }

  lemma WindowOpens(m: seq<Word>, w: seq<Word>)
    requires |m| == 16 && w == m
    ensures Window(m, w, 16)
  {}

  lemma FirstSixteen(m: seq<Word>, t: nat)
    requires |m| == 16 && t < 16
    ensures Schedule(m, t) == m[t]
  {}

  // ---------- The mining kernel's form, with all 64 schedule words at hand ----------

  method KernelTransform(state: array<Word>, blk: array<Word>, out: array<Word>)
    requires state.Length == 8 && blk.Length == 16 && out.Length == 8 && out != state
    modifies out
    ensures out[..] == Compress(old(state[..]), old(blk[..]))
  {
    hide Rounds, Plus, Add, Compress;
    var h, m := state[..], blk[..];
    var w := ScheduleTable(m);
    var r := Load(h);
    RoundsZero(r, m);
    r := AllRounds(w, r, m);
    CompressIs(h, m, r);
    Store(state, r, out);
    assert out[..8] == out[..];
  }

  method ScheduleTable(m: seq<Word>) returns (w: array<Word>)
    requires |m| == 16
    ensures fresh(w) && w.Length == 64 && forall t :: 0 <= t < 64 ==> w[t] == Schedule(m, t)
  {
    hide Plus, SmallSigma0, SmallSigma1;
    w := new Word[64](_ => 0);
    for i := 0 to 16
      invariant forall t :: 0 <= t < i ==> w[t] == Schedule(m, t)
    {
      w[i] := m[i];
    }
    for i := 16 to 64
      invariant forall t :: 0 <= t < i ==> w[t] == Schedule(m, t)
    {
      w[i] := Plus(Plus(Plus(SmallSigma1(w[i - 2]), w[i - 7]), SmallSigma0(w[i - 15])), w[i - 16]);
    }
  }

  method AllRounds(w: array<Word>, r0: Regs, ghost m: seq<Word>) returns (r: Regs)
    requires |m| == 16 && w.Length == 64 && forall t :: 0 <= t < 64 ==> w[t] == Schedule(m, t)
    ensures r == Rounds(r0, m, 64)
  {
    hide Schedule, Round, K;
    r := r0;
    for i := 0 to 64
      invariant r == Rounds(r0, m, i)
    {
      r := Step(r, K(i), w[i]);
    }
  }
}
