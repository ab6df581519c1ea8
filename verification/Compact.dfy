/**
 The compact target format: a byte count and a 23-bit mantissa, with a sign bit
 nobody wants. Decoding is stated over unbounded naturals, so that overflow means
 what it says; encoding is proved to pick the largest representable value.
 */
module Compact {
  import opened Limbs
  import opened LimbSteps

  const MANTISSA: nat := 0x80_0000
  const EXPONENT: nat := 0x100_0000

  /** 256 to the power k. */
  function Pow256(k: nat): (p: nat)
    ensures p >= 1
  {
    if k == 0 then 1 else 0x100 * Pow256(k - 1)
  }

  // ---------- Decoding ----------

  function SizeOf(c: Limb): (n: nat) { c / EXPONENT }
  function WordOf(c: Limb): (w: nat) { c % MANTISSA }
  predicate SignOf(c: Limb) { (c / MANTISSA) % 2 == 1 }

  /** The magnitude a compact number stands for. */
  ghost function Decode(c: Limb): (v: nat)
  {
    if SizeOf(c) <= 3 then
      DivShrinks(WordOf(c), Pow256(3 - SizeOf(c)));
      WordOf(c) / Pow256(3 - SizeOf(c))
    else
      MulMono(0, WordOf(c), Pow256(SizeOf(c) - 3));
      WordOf(c) * Pow256(SizeOf(c) - 3)
  }

  ghost predicate IsNegative(c: Limb) { SignOf(c) && Decode(c) != 0 }
  ghost predicate Overflows(c: Limb) { Decode(c) >= MODULUS }

  lemma {:induction false} Pow256IsPow2(k: nat)
    ensures Pow256(k) == Pow2(8 * k)
  {
    if k > 0 {
      Pow256IsPow2(k - 1);
      Pow2Add(8 * k - 8 * (k - 1), 8 * (k - 1));
      Pow2Byte(8 * k - 8 * (k - 1));
    }
  }

  lemma {:induction false} Pow256Add(m: nat, n: nat)
    ensures Pow256(m + n) == Pow256(m) * Pow256(n)
  {
    if m > 0 {
      Pow256Add(m - 1, n);
      MulAssoc(0x100, Pow256(m - 1), Pow256(n));
    }
  }

  lemma Pow256Mono(m: nat, n: nat)
    requires m <= n
    ensures Pow256(m) <= Pow256(n)
  {
    Pow256Add(m, n - m);
    MulMono(1, Pow256(n - m), Pow256(m));
  }

  lemma Pow256Modulus(k: nat)
    requires k == 32
    ensures Pow256(k) == MODULUS
  {
    Pow256IsPow2(k);
    WeightIsPow2(WIDTH);
  }

  /** The three-way overflow test is exact. */
  lemma OverflowTest(size: nat, word: nat)
    requires word < MANTISSA && size > 3
    ensures word * Pow256(size - 3) >= MODULUS
       <==> word != 0 && (size > 34 || (word > 0xff && size > 33) || (word > 0xffff && size > 32))
  {
    hide Pow256;
    var t, full: nat := size - 3, 32;
    Pow256Modulus(full);
    Pow256Step(full - 1);
    Pow256Step(full - 2);
    if size > 34 {
      Pow256Mono(full, t);
      if word > 0 { MulMono(1, word, Pow256(t)); }
    } else if size == 34 {
      TopByte(word, Pow256(t), 0x100);
    } else if size == 33 {
      TopByte(word, Pow256(t), 0x1_0000);
    } else {
      FewBytes(word, t, 29);
    }
  }

  lemma Pow256Step(n: nat)
    ensures Pow256(n + 1) == 0x100 * Pow256(n)
  {}

  lemma FewBytes(word: nat, t: nat, top: nat)
    requires word < MANTISSA && t <= top == 29
    ensures word * Pow256(t) < MODULUS
  {
    hide Pow256;
    Pow256Mono(t, top);
    Pow256Add(top, 3);
    Pow256Modulus(top + 3);
    ThreeBytes(3);
    MultipleBelow(word, MANTISSA, Pow256(t));
    MulMono(Pow256(t), Pow256(top), MANTISSA);
  }

  lemma ThreeBytes(n: nat)
    requires n == 3
    ensures Pow256(n) > MANTISSA
  {}

  lemma TopByte(word: nat, p: nat, cut: nat)
    requires cut * p == MODULUS && p > 0
    ensures word * p >= MODULUS <==> word >= cut
  {
    if word >= cut { MulMono(cut, word, p); } else { MultipleBelow(word, cut, p); }
  }

  // ---------- Encoding ----------

  /** The number of bytes of x. */
  ghost function ByteLen(x: nat): nat
  {
    if x == 0 then 0 else 1 + ByteLen(x / 0x100)
  }

  lemma {:induction false} ByteLenBounds(x: nat)
    ensures x < Pow256(ByteLen(x))
    ensures x > 0 ==> Pow256(ByteLen(x) - 1) <= x
  {
    if x > 0 {
      ByteLenBounds(x / 0x100);
      if x >= 0x100 { assert ByteLen(x) >= 2; }
    }
  }

  lemma ByteLenUnique(x: nat, k: nat)
    requires x < Pow256(k) && (k > 0 ==> Pow256(k - 1) <= x)
    ensures ByteLen(x) == k
  {
    ByteLenBounds(x);
    var n := ByteLen(x);
    if n < k { Pow256Mono(n, k - 1); }
    if n > k { Pow256Mono(k, n - 1); }
  }

  /** The three leading bytes of x, before any room is made for the sign bit. */
  ghost function Leading(x: nat): nat
  {
    var k := ByteLen(x);
    if k <= 3 then x * Pow256(3 - k) else
      DivShrinks(x, Pow256(k - 3));
      x / Pow256(k - 3)
  }

  lemma LeadingBounds(x: nat)
    ensures Leading(x) < EXPONENT
    ensures x > 0 ==> 0x1_0000 <= Leading(x)
  {
    var k := ByteLen(x);
    ByteLenBounds(x);
    if k <= 3 {
      SmallLeading(x);
    } else {
      assert Pow256(2) == 0x1_0000 && Pow256(3) == EXPONENT;
      hide ByteLen, Pow256;
      var p := Pow256(k - 3);
      Pow256Add(2, k - 3);
      Pow256Add(3, k - 3);
      QuotientBounds(x, p, 0x1_0000, EXPONENT);
    }
  }

  lemma SmallLeading(x: nat)
    requires ByteLen(x) <= 3
    ensures Leading(x) < EXPONENT && (x > 0 ==> 0x1_0000 <= Leading(x))
  {
    ByteLenBounds(x);
    var k := ByteLen(x);
    hide ByteLen;
    assert Pow256(1) == 0x100 && Pow256(2) == 0x1_0000 && Pow256(3) == 0x100_0000;
    if k == 0 {
    } else if k == 1 {
    } else if k == 2 {
    } else {
    }
  }

  lemma QuotientBounds(x: nat, p: nat, lo: nat, hi: nat)
    requires p > 0 && lo * p <= x < hi * p
    ensures lo <= x / p < hi
  {
    DivMod(x, p);
    if x / p < lo { MultipleBelow(x / p, lo, p); }
    if x / p >= hi { MulMono(hi, x / p, p); }
  }

  /** A byte count and three leading bytes, one fewer when they would reach the sign bit. */
  ghost function Pack(k: nat, m: nat): (c: Limb)
    requires k <= 32 && m < EXPONENT
  {
    if m >= MANTISSA then m / 0x100 + (k + 1) * EXPONENT else m + k * EXPONENT
  }

  lemma PackFields(k: nat, m: nat)
    requires k <= 32 && m < EXPONENT
    ensures !SignOf(Pack(k, m))
    ensures m < MANTISSA ==> SizeOf(Pack(k, m)) == k && WordOf(Pack(k, m)) == m
    ensures m >= MANTISSA ==> SizeOf(Pack(k, m)) == k + 1 && WordOf(Pack(k, m)) == m / 0x100
  {
    if m >= MANTISSA { FieldsOf(m / 0x100, k + 1); } else { FieldsOf(m, k); }
  }

  lemma FieldsOf(w: nat, k: nat)
    requires w < 0x80_0000 && k <= 33
    ensures (w + k * 0x100_0000) / 0x100_0000 == k
    ensures (w + k * 0x100_0000) % 0x80_0000 == w
    ensures (w + k * 0x100_0000) / 0x80_0000 == 2 * k
  {}

  /** The encoding of x. */
  ghost function Encode(x: nat): (c: Limb)
    requires x < MODULUS
  {
    LeadingBounds(x);
    ByteLenFits(x);
    Pack(ByteLen(x), Leading(x))
  }

  lemma ByteLenFits(x: nat)
    requires x < MODULUS
    ensures ByteLen(x) <= 32
  {
    ByteLenBounds(x);
    Pow256Modulus(32);
    if ByteLen(x) > 32 { Pow256Mono(32, ByteLen(x) - 1); }
  }

  /** The power of 256 whose multiples the encoding of x keeps. */
  ghost function Dropped(x: nat): nat
  {
    var k := ByteLen(x) + (if Leading(x) >= MANTISSA then 1 else 0);
    if k <= 3 then 0 else k - 3
  }

  /** The fields of the encoding, and the sign bit it leaves clear. */
  lemma EncodeFields(x: nat)
    requires x < MODULUS
    ensures !SignOf(Encode(x))
    ensures Leading(x) < MANTISSA ==> SizeOf(Encode(x)) == ByteLen(x) && WordOf(Encode(x)) == Leading(x)
    ensures Leading(x) >= MANTISSA ==> SizeOf(Encode(x)) == ByteLen(x) + 1 && WordOf(Encode(x)) == Leading(x) / 0x100
  {
    LeadingBounds(x);
    ByteLenFits(x);
    PackFields(ByteLen(x), Leading(x));
  }

  /** The encoding keeps the whole of x above the dropped bytes, and enough of it. */
  lemma EncodeFloor(x: nat)
    requires x < MODULUS
    ensures Decode(Encode(x)) == (x / Pow256(Dropped(x))) * Pow256(Dropped(x))
    ensures Dropped(x) > 0 ==> 0x8000 <= x / Pow256(Dropped(x))
  {
    LeadingBounds(x);
    EncodeFields(x);
    if Leading(x) < MANTISSA {
      if ByteLen(x) <= 3 { DivUnique(Leading(x), Pow256(3 - ByteLen(x)), x, 0); }
    } else if ByteLen(x) < 3 {
      SmallAdjusted(x);
    } else {
      LargeAdjusted(x);
    }
  }

  lemma LargeAdjusted(x: nat)
    requires x < MODULUS && ByteLen(x) >= 3 && Leading(x) >= MANTISSA
    ensures Dropped(x) == ByteLen(x) - 2
    ensures x / Pow256(Dropped(x)) == Leading(x) / 0x100
  {
    if ByteLen(x) == 3 {
      assert Pow256(0) == 1 && Pow256(1) == 0x100;
    } else {
      NestedByte(x, Pow256(ByteLen(x) - 3));
    }
  }

  lemma NestedByte(x: nat, p: nat)
    requires p > 0
    ensures (x / p) / 0x100 == x / (0x100 * p)
  {
    var q, r := (x / p) / 0x100, (x / p) % 0x100;
    DivMod(x, p);
    assert (0x100 * q + r) * p == q * (0x100 * p) + r * p by { Distribute(0x100 * q, r, p); }
    MultipleBelow(r, 0x100, p);
    MulMono(0, r, p);
    DivUnique(x, 0x100 * p, q, r * p + x % p);
  }

  /** One- and two-byte numbers that reach the sign bit are still exact. */
  lemma SmallAdjusted(x: nat)
    requires x < MODULUS && 0 < ByteLen(x) < 3 && Leading(x) >= MANTISSA
    ensures Decode(Encode(x)) == x && Dropped(x) == 0
  {
    EncodeFields(x);
    assert Pow256(0) == 1 && Pow256(1) == 0x100 && Pow256(2) == 0x1_0000;
  }

  /** The encoded value never exceeds x, and no non-negative compact value lies between them. */
  lemma EncodeIsLargest(x: nat, c: Limb)
    requires x < MODULUS
    ensures Decode(Encode(x)) <= x
    ensures !SignOf(c) && Decode(c) <= x ==> Decode(c) <= Decode(Encode(x))
  {
    EncodeFloor(x);
    var e, y := Dropped(x), Decode(Encode(x));
    var p := Pow256(e);
    DivMod(x, p);
    if e == 0 {
      DivUnique(x, p, x, 0);
    } else if Decode(c) <= x {
      var size, word := SizeOf(c), WordOf(c);
      MulMono(0x8000, x / p, p);
      if size <= 3 {
        SmallDecode(c);
        Pow256Mono(1, e);
        assert Pow256(1) == 0x100;
      } else if size - 3 >= e {
        Pow256Add(size - 3 - e, e);
        MulAssoc(word, Pow256(size - 3 - e), p);
        MultipleFits(word * Pow256(size - 3 - e), x, p);
      } else {
        Pow256Mono(size - 2, e);
        MulMono(word, MANTISSA, Pow256(size - 3));
      }
    }
  }

  lemma SmallDecode(c: Limb)
    requires SizeOf(c) <= 3
    ensures Decode(c) < MANTISSA
  {
    DivShrinks(WordOf(c), Pow256(3 - SizeOf(c)));
  }

  lemma MultipleFits(q: int, x: nat, p: nat)
    requires p > 0 && q * p <= x
    ensures q * p <= (x / p) * p
  {
    DivMod(x, p);
    if q > x / p { MulMono(x / p + 1, q, p); Distribute(x / p, 1, p); }
    MulMono(q, x / p, p);
  }

  /** Hence encoding is monotone in value ... */
  lemma EncodeMonotone(x: nat, x': nat)
    requires x <= x' < MODULUS
    ensures Decode(Encode(x)) <= Decode(Encode(x'))
  {
    EncodeIsLargest(x, 0);
    EncodeFields(x);
    EncodeIsLargest(x', Encode(x));
  }

  /** ... and exact on every value the format can hold. */
  lemma EncodeExact(c: Limb)
    requires !SignOf(c) && !Overflows(c)
    ensures Decode(Encode(Decode(c))) == Decode(c)
  {
    EncodeIsLargest(Decode(c), c);
  }

  /** Encoding twice gives the same 32 bits as encoding once. */
  lemma EncodeIdempotent(x: nat)
    requires x < MODULUS
    ensures Decode(Encode(x)) < MODULUS && Encode(Decode(Encode(x))) == Encode(x)
  {
    EncodeIsLargest(x, 0);
    EncodeFloor(x);
    if Dropped(x) == 0 {
      DivUnique(x, Pow256(0), x, 0);
    } else {
      SameLength(x, Decode(Encode(x)));
      SameLeading(x, Decode(Encode(x)));
      LeadingBounds(x);
      ByteLenFits(x);
      if Leading(x) >= MANTISSA { PackSame(ByteLen(x), Leading(x)); }
    }
  }

  lemma PackSame(k: nat, m: nat)
    requires k <= 32 && MANTISSA <= m < EXPONENT
    ensures Pack(k, (m / 0x100) * 0x100) == Pack(k, m)
  {}

  lemma SameLength(x: nat, y: nat)
    requires Dropped(x) > 0 && y == (x / Pow256(Dropped(x))) * Pow256(Dropped(x)) <= x
    ensures ByteLen(y) == ByteLen(x) >= 3
  {
    var k, e := ByteLen(x), Dropped(x);
    ByteLenBounds(x);
    Pow256Add(k - 1 - e, e);
    MultipleFits(Pow256(k - 1 - e), x, Pow256(e));
    ByteLenUnique(y, k);
  }

  lemma SameLeading(x: nat, y: nat)
    requires Dropped(x) > 0 && ByteLen(y) == ByteLen(x) >= 3
    requires y == (x / Pow256(Dropped(x))) * Pow256(Dropped(x))
    ensures Leading(x) < MANTISSA ==> Leading(y) == Leading(x)
    ensures Leading(x) >= MANTISSA ==> Leading(y) == (Leading(x) / 0x100) * 0x100
  {
    var k, m := ByteLen(x), Leading(x);
    if k == 3 {
      assert Pow256(0) == 1 && Pow256(1) == 0x100;
    } else {
      hide ByteLen, Pow256;
      var p := Pow256(k - 3);
      if m < MANTISSA {
        DivUnique(y, p, m, 0);
      } else {
        NestedByte(x, p);
        MulAssoc(m / 0x100, 0x100, p);
        DivUnique(y, p, (m / 0x100) * 0x100, 0);
      }
    }
  }

  // ---------- What the shift-and-mask code computes ----------

  /** Rounding a bit length up to bytes gives the byte length. */
  lemma BytesOfBits(x: nat, n: nat)
    requires IsBitLength(x, n)
    ensures ByteLen(x) == (n + 7) / 8
  {
    if n > 0 {
      var k := (n + 7) / 8;
      Pow256IsPow2(k);
      Pow256IsPow2(k - 1);
      Pow2Mono(n, 8 * k);
      Pow2Mono(8 * (k - 1), n - 1);
      ByteLenUnique(x, k);
    }
  }

  /** Or-ing the byte count in above three bytes. */
  lemma OrSize(w: Limb, k: Limb, n: nat)
    requires w < EXPONENT && k <= 33 && Pow2(n) == EXPONENT
    ensures Or32(w, Shl32(k, n)) == w + k * EXPONENT
  {
    hide Or, Shl32, Pow2;
    Shl32IsProduct(k, n);
    OrIsSum(w, k, n);
  }

  lemma Pow24(n: nat)
    requires n == 24
    ensures Pow2(n) == EXPONENT
  {
    Pow2Byte(n - 16);
    Pow2Add(n - 16, n - 16);
    Pow2Add(n - 8, n - 16);
  }

  lemma OrSign(c: Limb, n: nat)
    requires !SignOf(c) && Pow2(n) == MANTISSA
    ensures c + MANTISSA < BASE && Or32(c, MANTISSA) == c + MANTISSA
  {
    OrSetsBit(c, n);
  }

  lemma SignTest(m: nat)
    requires m < 0x100_0000
    ensures (m / 0x80_0000) % 2 == 1 <==> m >= 0x80_0000
  {}

  /** Up to three bytes: shifted up to fill the mantissa. */
  lemma LeadingSmall(x: nat, low: nat)
    requires ByteLen(x) <= 3 && low == x % (BASE * BASE)
    ensures (low * Pow256(3 - ByteLen(x))) % BASE == Leading(x)
  {
    ByteLenBounds(x);
    LeadingBounds(x);
    Pow256Mono(ByteLen(x), 3);
    assert Pow256(3) == EXPONENT;
    DivUnique(x, BASE * BASE, 0, x);
    DivUnique(Leading(x), BASE, 0, Leading(x));
  }

  /** More than three bytes: shifted down to the leading three. */
  lemma LeadingLarge(x: nat, y: nat, low: nat)
    requires ByteLen(x) > 3 && y == x / Pow2(8 * (ByteLen(x) - 3)) && low == y % (BASE * BASE)
    ensures low % BASE == Leading(x)
  {
    Pow256IsPow2(ByteLen(x) - 3);
    LeadingBounds(x);
    DivUnique(y, BASE * BASE, 0, y);
    DivUnique(y, BASE, 0, y);
  }
}
