/** The bitwise operators of 32-bit words that hashing needs, and words as four big-endian bytes. */
module Bits {
  import opened Limbs

  type Word = Limb

  function Xor(x: nat, y: nat): nat
    decreases x + y
  {
    if x == 0 && y == 0 then 0 else (x % 2 + y % 2) % 2 + 2 * Xor(x / 2, y / 2)
  }

  function And(x: nat, y: nat): nat
    decreases x + y
  {
    if x == 0 && y == 0 then 0 else (if x % 2 == 1 && y % 2 == 1 then 1 else 0) + 2 * And(x / 2, y / 2)
  }

  lemma {:induction false} XorBound(x: nat, y: nat, n: nat)
    requires x < Pow2(n) && y < Pow2(n)
    ensures Xor(x, y) < Pow2(n)
    decreases n
  {
    if n > 0 { XorBound(x / 2, y / 2, n - 1); }
  }

  lemma {:induction false} AndBound(x: nat, y: nat, n: nat)
    requires x < Pow2(n) && y < Pow2(n)
    ensures And(x, y) < Pow2(n)
    decreases n
  {
    if n > 0 { AndBound(x / 2, y / 2, n - 1); }
  }

  function Xor8(x: Byte, y: Byte): (r: Byte)
  {
    var n: nat := 8;
    Pow2Byte(n);
    XorBound(x, y, n);
    Xor(x, y)
  }

  function Xor32(x: Word, y: Word): (r: Word)
  {
    var n: nat := 32;
    Pow2Word(n);
    XorBound(x, y, n);
    Xor(x, y)
  }

  function And32(x: Word, y: Word): (r: Word)
  {
    var n: nat := 32;
    Pow2Word(n);
    AndBound(x, y, n);
    And(x, y)
  }

  function Not32(x: Word): Word { BASE - 1 - x }

  function Plus(x: Word, y: Word): Word { (x as int + y) % BASE }

  function Rotr(x: Word, n: nat): Word
    requires 0 < n < 32
  {
    Or32(Shr32(x, n), Shl32(x, 32 - n))
  }

  lemma PlusRegroups(x: Word, y: Word, z: Word)
    ensures Plus(Plus(x, y), z) == Plus(x, Plus(y, z))
  {
    hide Plus;
    PlusIs(x, y);
    PlusIs(y, z);
    PlusIs(Plus(x, y), z);
    PlusIs(x, Plus(y, z));
  }

  lemma PlusIs(x: Word, y: Word)
    ensures Plus(x, y) == if x as int + y < BASE then x + y else x + y - BASE
  {}

  lemma XorStep(x: nat, y: nat, x': nat, y': nat)
    requires x' == x / 2 && y' == y / 2
    ensures Xor(x, y) == (x % 2 + y % 2) % 2 + 2 * Xor(x', y')
    ensures Xor(x, y) / 2 == Xor(x', y') && Xor(x, y) % 2 == (x % 2 + y % 2) % 2
  {}

  /** The low n bits and the bits above them are combined separately. */
  lemma {:induction false} XorSplit(a: nat, b: nat, c: nat, d: nat, n: nat)
    requires b < Pow2(n) && d < Pow2(n)
    ensures Xor(a * Pow2(n) + b, c * Pow2(n) + d) == Xor(a, c) * Pow2(n) + Xor(b, d)
    decreases n
  {
    if n > 0 {
      XorSplit(a, b / 2, c, d / 2, n - 1);
      XorSplitStep(a, b, c, d, Pow2(n - 1));
    }
  }

  lemma XorSplitStep(a: nat, b: nat, c: nat, d: nat, p: nat)
    requires Xor(a * p + b / 2, c * p + d / 2) == Xor(a, c) * p + Xor(b / 2, d / 2)
    ensures Xor(a * (2 * p) + b, c * (2 * p) + d) == Xor(a, c) * (2 * p) + Xor(b, d)
  {
    hide Xor;
    HalfOf(a, b, p);
    HalfOf(c, d, p);
    XorStep(a * (2 * p) + b, c * (2 * p) + d, a * p + b / 2, c * p + d / 2);
    XorStep(b, d, b / 2, d / 2);
    assert Xor(a, c) * (2 * p) == 2 * (Xor(a, c) * p);
  }

  lemma HalfOf(a: nat, b: nat, p: nat)
    ensures (a * (2 * p) + b) / 2 == a * p + b / 2 && (a * (2 * p) + b) % 2 == b % 2
  {
    assert a * (2 * p) == 2 * (a * p);
  }

  lemma {:induction false} XorCancels(x: nat, y: nat)
    ensures Xor(Xor(x, y), y) == x
    decreases x + y
  {
    hide Xor;
    XorStep(x, y, x / 2, y / 2);
    XorStep(Xor(x, y), y, Xor(x / 2, y / 2), y / 2);
    if x > 0 || y > 0 { XorCancels(x / 2, y / 2); }
  }

  // ---------- Bit by bit ----------

  /** Bit i, counted from the least significant. */
  ghost function Bit(w: nat, i: nat): (b: nat)
    ensures b <= 1
  {
    if i == 0 then w % 2 else Bit(w / 2, i - 1)
  }

  lemma {:induction false} XorBit(x: nat, y: nat, i: nat)
    ensures Bit(Xor(x, y), i) == (Bit(x, i) + Bit(y, i)) % 2
    decreases i
  {
    hide Xor;
    XorStep(x, y, x / 2, y / 2);
    if i > 0 { XorBit(x / 2, y / 2, i - 1); }
  }

  lemma AndStep(x: nat, y: nat, x': nat, y': nat)
    requires x' == x / 2 && y' == y / 2
    ensures And(x, y) == (if x % 2 == 1 && y % 2 == 1 then 1 else 0) + 2 * And(x', y')
    ensures And(x, y) / 2 == And(x', y') && And(x, y) % 2 == if x % 2 == 1 && y % 2 == 1 then 1 else 0
  {}

  lemma {:induction false} AndBit(x: nat, y: nat, i: nat)
    ensures Bit(And(x, y), i) == if Bit(x, i) == 1 && Bit(y, i) == 1 then 1 else 0
    decreases i
  {
    hide And;
    AndStep(x, y, x / 2, y / 2);
    if i > 0 { AndBit(x / 2, y / 2, i - 1); }
  }

  lemma {:induction false} ComplementBit(x: nat, n: nat, i: nat)
    requires x < Pow2(n) && i < n
    ensures Bit(Pow2(n) - 1 - x, i) == 1 - Bit(x, i)
    decreases i
  {
    var y := Pow2(n) - 1 - x;
    assert y / 2 == Pow2(n - 1) - 1 - x / 2 && y % 2 == 1 - x % 2;
    if i > 0 { ComplementBit(x / 2, n - 1, i - 1); }
  }

  lemma NotBit(x: Word, i: nat)
    requires i < 32
    ensures Bit(Not32(x), i) == 1 - Bit(x, i)
  {
    var n := 32;
    Pow2Word(n);
    hide Bit, Pow2;
    ComplementBit(x, n, i);
  }

  /** Above bit n a number shows the multiple, below it the rest. */
  lemma {:induction false} SplitBit(hi: nat, lo: nat, n: nat, i: nat)
    requires lo < Pow2(n)
    ensures Bit(lo + hi * Pow2(n), i) == if i < n then Bit(lo, i) else Bit(hi, i - n)
    decreases n
  {
    if n > 0 {
      Halve(hi, Pow2(n - 1));
      var w := lo + hi * Pow2(n);
      assert w / 2 == lo / 2 + hi * Pow2(n - 1) && w % 2 == lo % 2;
      if i > 0 { SplitBit(hi, lo / 2, n - 1, i - 1); }
    }
  }

  /** Shifting right by n takes bit i + n to bit i. */
  lemma ShrBit(x: Word, n: nat, i: nat)
    ensures Bit(Shr32(x, n), i) == Bit(x, i + n)
  {
    hide Bit, Pow2, Shr32;
    Shr32IsQuotient(x, n);
    DivMod(x, Pow2(n));
    SplitBit(Shr32(x, n), x % Pow2(n), n, i + n);
  }

  /** Rotating right by n takes bit i + n, coming round, to bit i. */
  lemma RotrBit(x: Word, n: nat, i: nat)
    requires 0 < n < 32 && i < 32
    ensures Bit(Rotr(x, n), i) == Bit(x, (i + n) % 32)
  {
    hide Bit, Pow2, Rotr;
    RotrIsSum(x, n);
    DivMod(x, Pow2(n));
    Rounded(x, x / Pow2(n), x % Pow2(n), n, i);
  }

  lemma Rounded(x: nat, q: nat, r: nat, n: nat, i: nat)
    requires 0 < n < 32 && i < 32 && r < Pow2(n) && q < Pow2(32 - n) && x == r + q * Pow2(n)
    ensures Bit(q + r * Pow2(32 - n), i) == Bit(x, (i + n) % 32)
  {
    hide Bit, Pow2;
    SplitBit(r, q, 32 - n, i);
    SplitBit(q, r, n, (i + n) % 32);
  }

  lemma RotrIsSum(x: Word, n: nat)
    requires 0 < n < 32
    ensures x / Pow2(n) < Pow2(32 - n) && Rotr(x, n) == x / Pow2(n) + x % Pow2(n) * Pow2(32 - n)
  {
    var e := 32;
    hide Or, Shr32, Shl32;
    Pow2Word(e);
    Pow2Add(n, 32 - n);
    hide Pow2;
    var p, q := Pow2(n), Pow2(32 - n);
    DivMod(x, p);
    QuotientBelow(x, p, q);
    Shr32IsQuotient(x, n);
    Shl32IsProduct(x, 32 - n);
    LowTimes(x, p, q);
    OrIsSum(x / p, x % p, 32 - n);
  }

  lemma QuotientBelow(x: nat, p: nat, q: nat)
    requires p > 0 && x < p * q
    ensures x / p < q
  {
    DivMod(x, p);
    if x / p >= q { MulMono(q, x / p, p); }
  }

  lemma LowTimes(x: nat, p: nat, q: nat)
    requires p > 0 && q > 0
    ensures x * q % (p * q) == x % p * q
  {
    DivMod(x, p);
    Distribute(x / p * p, x % p, q);
    MulAssoc(x / p, p, q);
    MulMono(x % p + 1, p, q);
    Distribute(x % p, 1, q);
    DivUnique(x * q, p * q, x / p, x % p * q);
  }

  // ---------- Four bytes, most significant first ----------

  function Pack(a: Byte, b: Byte, c: Byte, d: Byte): Word
  {
    a as int * 0x100_0000 + b as int * 0x1_0000 + c as int * 0x100 + d
  }

  /** Byte i of a word, counted from the most significant. */
  function ByteOf(w: Word, i: nat): Byte
    requires i < 4
  {
    if i == 0 then w / 0x100_0000
    else if i == 1 then w / 0x1_0000 % 0x100
    else if i == 2 then w / 0x100 % 0x100
    else w % 0x100
  }

  lemma PackBytes(w: Word)
    ensures Pack(ByteOf(w, 0), ByteOf(w, 1), ByteOf(w, 2), ByteOf(w, 3)) == w
  {
    var a, b := w / 0x100, w / 0x1_0000;
    assert a == b * 0x100 + ByteOf(w, 2);
    assert b == ByteOf(w, 0) * 0x100 + ByteOf(w, 1);
  }

  lemma BytesOfPack(a: Byte, b: Byte, c: Byte, d: Byte)
    ensures ByteOf(Pack(a, b, c, d), 0) == a && ByteOf(Pack(a, b, c, d), 1) == b
    ensures ByteOf(Pack(a, b, c, d), 2) == c && ByteOf(Pack(a, b, c, d), 3) == d
  {
    var w := Pack(a, b, c, d);
    assert w / 0x100 == a as int * 0x1_0000 + b as int * 0x100 + c;
    assert w / 0x1_0000 == a as int * 0x100 + b;
    assert w / 0x100_0000 == a;
  }

  /** The word operator is the byte operator, byte by byte. */
  lemma XorPacked(a: Byte, b: Byte, c: Byte, d: Byte, a': Byte, b': Byte, c': Byte, d': Byte)
    ensures Xor32(Pack(a, b, c, d), Pack(a', b', c', d'))
         == Pack(Xor8(a, a'), Xor8(b, b'), Xor8(c, c'), Xor8(d, d'))
  {
    hide Xor;
    var n: nat := 8;
    Pow2Byte(n);
    XorSplit(a, b, a', b', n);
    XorSplit(a * 0x100 + b, c, a' * 0x100 + b', c', n);
    XorSplit((a * 0x100 + b) * 0x100 + c, d, (a' * 0x100 + b') * 0x100 + c', d', n);
  }

  /** The words a byte string spells, four bytes each. */
  function Words(s: seq<Byte>): (w: seq<Word>)
    requires |s| % 4 == 0
    ensures |w| == |s| / 4
  {
    seq(|s| / 4, i requires 0 <= i < |s| / 4 => Pack(s[4 * i], s[4 * i + 1], s[4 * i + 2], s[4 * i + 3]))
  }

  function Bytes(w: seq<Word>): (s: seq<Byte>)
    ensures |s| == 4 * |w|
  {
    seq(4 * |w|, i requires 0 <= i < 4 * |w| => ByteOf(w[i / 4], i % 4))
  }

  lemma WordsOfBytes(w: seq<Word>)
    ensures Words(Bytes(w)) == w
  {
    hide Pack, ByteOf;
    forall i | 0 <= i < |w|
      ensures Words(Bytes(w))[i] == w[i]
    {
      PackBytes(w[i]);
    }
  }

  lemma BytesOfWords(s: seq<Byte>)
    requires |s| % 4 == 0
    ensures Bytes(Words(s)) == s
  {
    hide Pack, ByteOf;
    forall k | 0 <= k < |s|
      ensures Bytes(Words(s))[k] == s[k]
    {
      var i := k / 4;
      BytesOfPack(s[4 * i], s[4 * i + 1], s[4 * i + 2], s[4 * i + 3]);
    }
  }

  lemma WordsConcat(s: seq<Byte>, t: seq<Byte>)
    requires |s| % 4 == 0 && |t| % 4 == 0
    ensures Words(s + t) == Words(s) + Words(t)
  {
    hide Pack;
  }
}
