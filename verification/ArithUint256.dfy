/**
 The 256-bit unsigned integer of the consensus code: eight 32-bit limbs, least
 significant first, rewritten in place. Every operator is proved against plain
 integers, for all operands, aliased ones included.
 */
module ArithUint256 {
  import opened Compact
  import opened Limbs
  import opened LimbSteps

  class Uint256 {
    const pn: array<Limb>

    ghost predicate Valid() { pn.Length == WIDTH }

    ghost function Value(): (v: nat)
      reads pn
      requires Valid()
    {
      Val(pn[..], WIDTH)
    }

    /** Construction from a 64-bit number. */
    constructor (b: Word64)
      ensures Valid() && fresh(pn) && Value() == b
    {
      var a := new Limb[WIDTH](i => 0);
      a[0] := b % BASE;
      a[1] := b / BASE;
      pn := a;
      new;
      LowWords(pn[..]);
    }

    /** Copy construction. */
    constructor Copy(b: Uint256)
      requires b.Valid()
      ensures Valid() && fresh(pn) && pn[..] == b.pn[..] && Value() == b.Value()
    {
      var a := new Limb[WIDTH];
      for i := 0 to WIDTH
        invariant forall k :: 0 <= k < i ==> a[k] == b.pn[k]
      {
        a[i] := b.pn[i];
      }
      pn := a;
    }

    method Assign(b: Uint256)
      requires Valid() && b.Valid()
      modifies pn
      ensures Value() == old(b.Value())
    {
      for i := 0 to WIDTH
        invariant forall k :: 0 <= k < i ==> pn[k] == old(b.pn[k])
        invariant forall k :: i <= k < WIDTH ==> pn[k] == old(pn[k]) && b.pn[k] == old(b.pn[k])
      {
        pn[i] := b.pn[i];
      }
      ValPrefix(pn[..], old(b.pn[..]), WIDTH);
    }

    method AssignWord(b: Word64)
      requires Valid()
      modifies pn
      ensures Value() == b
    {
      pn[0] := b % BASE;
      pn[1] := b / BASE;
      for i := 2 to WIDTH
        invariant pn[0] == b % BASE && pn[1] == b / BASE
        invariant forall k :: 2 <= k < i ==> pn[k] == 0
      {
        pn[i] := 0;
      }
      LowWords(pn[..]);
    }

    /** The two lowest limbs as one number. */
    method GetLow64() returns (r: Word64)
      requires Valid()
      ensures r == Value() % (BASE * BASE)
    {
      r := pn[0] + pn[1] * BASE;
      ghost var hi := ValSplit(pn[..], 2, WIDTH);
      LowTwo(pn[..]);
      assert Weight(2) == BASE * BASE;
      DivUnique(Value(), BASE * BASE, hi, r);
    }

    method AddAssign(b: Uint256)
      requires Valid() && b.Valid()
      modifies pn
      ensures Value() == (old(Value()) + old(b.Value())) % MODULUS
    {
      ghost var x, y := pn[..], b.pn[..];
      assert AddCarry(x, y, 0) == 0;
      hide Val, AddCarry, AddDigit;
      var carry: Word64 := 0;
      for i := 0 to WIDTH
        invariant carry == AddCarry(x, y, i)
        invariant forall k :: i <= k < WIDTH ==> pn[k] == x[k] && b.pn[k] == y[k]
        invariant forall k :: 0 <= k < i ==> pn[k] == AddDigit(x, y, k)
      {
        AddNext(x, y, i);
        var n: Word64 := carry + pn[i] + b.pn[i];
        pn[i] := n % BASE;
        carry := n / BASE;
      }
      AddDigits(x, y, pn[..], WIDTH);
      Reduced(pn[..], carry, Val(x, WIDTH) + Val(y, WIDTH));
    }

    /** Limb-wise complement. */
    method Complement() returns (ret: Uint256)
      requires Valid()
      ensures fresh(ret) && fresh(ret.pn) && ret.Valid()
      ensures ret.Value() == MODULUS - 1 - Value()
    {
      ret := new Uint256(0);
      for i := 0 to WIDTH
        invariant forall k :: 0 <= k < i ==> ret.pn[k] == BASE - 1 - pn[k]
      {
        ret.pn[i] := BASE - 1 - pn[i];
      }
      ComplementDigits(pn[..], ret.pn[..], WIDTH);
    }

    /** Prefix increment: carries past every limb that wraps to zero. */
    method Increment()
      requires Valid()
      modifies pn
      ensures Value() == (old(Value()) + 1) % MODULUS
    {
      ghost var x := pn[..];
      var i := 0;
      while i < WIDTH
        invariant 0 <= i <= WIDTH
        invariant forall k :: 0 <= k < i ==> x[k] == BASE - 1 && pn[k] == 0
        invariant forall k :: i <= k < WIDTH ==> pn[k] == x[k]
      {
        pn[i] := (pn[i] + 1) % BASE;
        if pn[i] != 0 { break; }
        i := i + 1;
      }
      IncrementDigits(x, pn[..], i);
    }

    /** Two's complement negation. */
    method Negate() returns (ret: Uint256)
      requires Valid()
      ensures fresh(ret) && fresh(ret.pn) && ret.Valid()
      ensures ret.Value() == (MODULUS - Value()) % MODULUS
    {
      ret := Complement();
      ret.Increment();
    }

    method SubAssign(b: Uint256)
      requires Valid() && b.Valid()
      modifies pn
      ensures Value() == (old(Value()) - old(b.Value())) % MODULUS
    {
      hide Val, Weight;
      ghost var x, y := Value(), b.Value();
      ValBound(b.pn[..], WIDTH);
      ModSub(x, y, MODULUS);
      var neg := b.Negate();
      AddAssign(neg);
    }

    method MulWordAssign(b32: Limb)
      requires Valid()
      modifies pn
      ensures Value() == (old(Value()) * b32) % MODULUS
    {
      ghost var x, zero := pn[..], seq(WIDTH, i => 0 as Limb);
      assert RowCarry(zero, 0, b32, x, 0) == 0;
      hide Val, RowCarry, RowDigit;
      var carry: Word64 := 0;
      for i := 0 to WIDTH
        invariant carry == RowCarry(zero, 0, b32, x, i)
        invariant forall k :: i <= k < WIDTH ==> pn[k] == x[k]
        invariant forall k :: 0 <= k < i ==> pn[0 + k] == RowDigit(zero, 0, b32, x, k)
      {
        WordProduct(b32, pn[i]);
        RowNext(zero, 0, b32, x, i);
        var n: Word64 := carry + b32 * pn[i];
        pn[i] := n % BASE;
        carry := n / BASE;
      }
      MulWordDone(x, b32, pn[..], zero);
    }

    /** Schoolbook multiplication into a fresh accumulator, row by row. */
    method MulAssign(b: Uint256)
      requires Valid() && b.Valid()
      modifies pn
      ensures Value() == (old(Value()) * old(b.Value())) % MODULUS
    {
      ghost var x, y := pn[..], b.pn[..];
      var a := new Uint256(0);
      ghost var q := 0;
      for j := 0 to WIDTH
        invariant pn[..] == x && b.pn[..] == y
        invariant a.Value() + q * MODULUS == Val(x, j) * Val(y, WIDTH)
      {
        ghost var before := a.pn[..];
        assert pn[j] == x[j];
        a.AddRow(j, pn[j], b);
        assert b.pn[..] == y;
        ghost var r := RowDone(before, j, x[j], y, a.pn[..]);
        MulRowStep(a.Value(), Val(before, WIDTH), q, r, Val(x, j), x[j], Weight(j), Val(y, WIDTH), MODULUS);
        q := q + r;
      }
      Assign(a);
      Reduced(pn[..], q, Val(x, WIDTH) * Val(y, WIDTH));
    }

    /** The inner loop of multiplication: adds f * b into this number from limb j on. */
    method AddRow(j: nat, f: Limb, b: Uint256)
      requires Valid() && b.Valid() && b.pn != pn && j < WIDTH
      modifies pn
      ensures forall k :: 0 <= k < j ==> pn[k] == old(pn[k])
      ensures forall k :: 0 <= k < WIDTH - j ==>
                pn[..][j + k] == RowDigit(old(pn[..]), j, f, b.pn[..], k)
    {
      ghost var x, y := pn[..], b.pn[..];
      assert RowCarry(x, j, f, y, 0) == 0;
      hide RowCarry, RowDigit;
      var carry: Word64 := 0;
      for i := 0 to WIDTH - j
        invariant b.pn[..] == y
        invariant carry == RowCarry(x, j, f, y, i)
        invariant forall k :: 0 <= k < j ==> pn[k] == x[k]
        invariant forall k :: j + i <= k < WIDTH ==> pn[k] == x[k]
        invariant forall k :: 0 <= k < i ==> pn[j + k] == RowDigit(x, j, f, y, k)
      {
        WordProduct(f, b.pn[i]);
        RowNext(x, j, f, y, i);
        var n: Word64 := carry + pn[i + j] + f * b.pn[i];
        pn[i + j] := n % BASE;
        carry := n / BASE;
      }
    }

    method ShiftLeftAssign(shift: nat)
      requires Valid()
      modifies pn
      ensures Value() == (old(Value()) * Pow2(shift)) % MODULUS
    {
      hide Val, ShlTurn, ShrTurn;
      var a := new Uint256.Copy(this);
      ghost var x := a.pn[..];
      Clear();
      var k, s := shift / 32, shift % 32;
      for i := 0 to WIDTH
        invariant a.pn[..] == x && pn[..] == ShlLoop(x, k, s, i)
      {
        LimbUp(a.pn[i], k, s, i);
      }
      ShlDone(x, shift, pn[..]);
    }

    method ShiftRightAssign(shift: nat)
      requires Valid()
      modifies pn
      ensures Value() == old(Value()) / Pow2(shift)
    {
      hide Val, ShlTurn, ShrTurn;
      var a := new Uint256.Copy(this);
      ghost var x := a.pn[..];
      Clear();
      var k, s := shift / 32, shift % 32;
      for i := 0 to WIDTH
        invariant a.pn[..] == x && pn[..] == ShrLoop(x, k, s, i)
      {
        LimbDown(a.pn[i], k, s, i);
      }
      ShrDone(x, shift, pn[..]);
    }

    method LimbUp(limb: Limb, k: nat, s: nat, i: nat)
      requires Valid() && s < 32 && i < WIDTH
      modifies pn
      ensures pn[..] == ShlTurn(old(pn[..]), limb, k, s, i)
    {
      hide Or32, Shl32, Shr32;
      if i + k + 1 < WIDTH && s != 0 {
        pn[i + k + 1] := Or32(pn[i + k + 1], Shr32(limb, 32 - s));
      }
      if i + k < WIDTH {
        pn[i + k] := Or32(pn[i + k], Shl32(limb, s));
      }
    }

    method LimbDown(limb: Limb, k: nat, s: nat, i: nat)
      requires Valid() && s < 32 && i < WIDTH
      modifies pn
      ensures pn[..] == ShrTurn(old(pn[..]), limb, k, s, i)
    {
      hide Or32, Shl32, Shr32;
      if i >= k + 1 && s != 0 {
        pn[i - k - 1] := Or32(pn[i - k - 1], Shl32(limb, 32 - s));
      }
      if i >= k {
        pn[i - k] := Or32(pn[i - k], Shr32(limb, s));
      }
    }

    /** Shift-subtract division; division by zero throws after the quotient was cleared. */
    method DivAssign(b: Uint256) returns (ok: bool)
      requires Valid() && b.Valid()
      modifies pn
      ensures ok <==> old(b.Value()) != 0
      ensures ok ==> Value() == old(Value()) / old(b.Value())
      ensures !ok ==> Value() == 0
    {
      var div := new Uint256.Copy(b);
      var num := new Uint256.Copy(this);
      ghost var n, d := num.Value(), div.Value();
      Clear();
      var numBits := num.Bits();
      var divBits := div.Bits();
      if divBits == 0 { return false; }
      if divBits > numBits {
        ShorterIsLess(n, numBits, d, divBits);
        return true;
      }
      var shift: int := numBits - divBits;
      div.ShiftLeftAssign(shift);
      AlignedIsEnough(n, numBits, d, divBits);
      AlignedFits(d, divBits, numBits);
      DivStart(pn[..], n, d, shift);
      DivideBits(num, div, shift, n, d);
      return true;
    }

    /** The division loop, from the top bit of the quotient down. */
    method DivideBits(num: Uint256, div: Uint256, top: nat, ghost n: nat, ghost d: nat)
      requires Valid() && num.Valid() && div.Valid() && pn != num.pn && pn != div.pn && num.pn != div.pn
      requires top < 256 && div.Value() == d * Pow2(top)
      requires DivState(pn[..], num.Value(), n, d, top + 1)
      modifies pn, num.pn, div.pn
      ensures d > 0 && Value() == n / d
    {
      hide DivState, Val, Pow2;
      var shift: int := top;
      while shift >= 0
        invariant -1 <= shift < 256
        invariant shift >= 0 ==> div.Value() == d * Pow2(shift)
        invariant DivState(pn[..], num.Value(), n, d, shift + 1)
      {
        DivideBit(num, div, shift, n, d);
        div.ShiftRightAssign(1);
        if shift > 0 { HalveDivisor(d, shift); }
        shift := shift - 1;
      }
      DivFinish(pn[..], num.Value(), n, d);
    }

    /** The body of the division loop: bit `shift` of the quotient. */
    method DivideBit(num: Uint256, div: Uint256, shift: nat, ghost n: nat, ghost d: nat)
      requires Valid() && num.Valid() && div.Valid() && pn != num.pn && pn != div.pn && num.pn != div.pn
      requires shift < 256 && div.Value() == d * Pow2(shift)
      requires DivState(pn[..], num.Value(), n, d, shift + 1)
      modifies pn, num.pn
      ensures DivState(pn[..], num.Value(), n, d, shift)
    {
      hide Val, Pow2, Or32, Shl32, DivState;
      ghost var q, r := pn[..], num.Value();
      var c := num.CompareTo(div);
      if c >= 0 {
        ValBound(num.pn[..], WIDTH);
        num.SubAssign(div);
        pn[shift / 32] := Or32(pn[shift / 32], Shl32(1, shift % 32));
        DivTake(q, r, n, d, shift, pn[..], num.Value());
      } else {
        DivSkip(q, r, n, d, shift);
      }
    }

    /** Sign of the difference, decided at the highest limb that differs. */
    method CompareTo(b: Uint256) returns (c: int)
      requires Valid() && b.Valid()
      ensures c == (if Value() < b.Value() then -1 else if Value() > b.Value() then 1 else 0)
    {
      var i := WIDTH - 1;
      while i >= 0
        invariant -1 <= i < WIDTH
        invariant forall k :: i < k < WIDTH ==> pn[k] == b.pn[k]
      {
        if pn[i] < b.pn[i] {
          TopLimbDecides(pn[..], b.pn[..], i);
          return -1;
        }
        if pn[i] > b.pn[i] {
          TopLimbDecides(b.pn[..], pn[..], i);
          return 1;
        }
        i := i - 1;
      }
      ValPrefix(pn[..], b.pn[..], WIDTH);
      return 0;
    }

    method EqualTo(b: Word64) returns (eq: bool)
      requires Valid()
      ensures eq <==> Value() == b
    {
      var i := WIDTH - 1;
      while i >= 2
        invariant 1 <= i < WIDTH
        invariant forall k :: i < k < WIDTH ==> pn[k] == 0
      {
        if pn[i] != 0 {
          HighLimbExceedsWord(pn[..], i);
          return false;
        }
        i := i - 1;
      }
      LowWords(pn[..]);
      if pn[1] != b / BASE { return false; }
      if pn[0] != b % BASE { return false; }
      return true;
    }

    /** Position of the highest set bit plus one, or zero. */
    method Bits() returns (n: nat)
      requires Valid()
      ensures IsBitLength(Value(), n) && n <= 256
    {
      var pos := WIDTH - 1;
      while pos >= 0
        invariant -1 <= pos < WIDTH
        invariant forall k :: pos < k < WIDTH ==> pn[k] == 0
      {
        if pn[pos] != 0 {
          var nbits := 31;
          Pow2Word(nbits + 1);
          while nbits > 0
            invariant 0 <= nbits <= 31
            invariant pn[pos] < Pow2(nbits + 1)
          {
            if Shr32(pn[pos], nbits) % 2 == 1 {
              TopBit(pn[..], pos, nbits);
              return 32 * pos + nbits + 1;
            }
            BitClear(pn[pos], nbits);
            nbits := nbits - 1;
          }
          TopBit(pn[..], pos, 0);
          return 32 * pos + 1;
        }
        pos := pos - 1;
      }
      ValZero(pn[..], WIDTH);
      return 0;
    }

    /** Decodes a compact number, reporting a sign and an overflow. */
    method SetCompact(nCompact: Limb) returns (negative: bool, overflow: bool)
      requires Valid()
      modifies pn
      ensures Value() == Decode(nCompact) % MODULUS
      ensures negative <==> IsNegative(nCompact)
      ensures overflow <==> Overflows(nCompact)
    {
      var nSize, nWord := SizeOf(nCompact), WordOf(nCompact);
      if nSize <= 3 {
        SmallDecode(nCompact);
        nWord := nWord / Pow256(3 - nSize);
        AssignWord(nWord);
        WordFits(nWord);
      } else {
        AssignWord(nWord);
        ShiftLeftAssign(8 * (nSize - 3));
        Pow256IsPow2(nSize - 3);
        OverflowTest(nSize, nWord);
        if nWord > 0 { MulMono(1, nWord, Pow256(nSize - 3)); }
      }
      negative := nWord != 0 && SignOf(nCompact);
      overflow := nWord != 0 && (nSize > 34 || (nWord > 0xff && nSize > 33) || (nWord > 0xffff && nSize > 32));
    }

    /** Encodes this number, with the sign bit when asked for and the mantissa is not zero. */
    method GetCompact(fNegative: bool) returns (c: Limb)
      requires Valid()
      ensures Value() < MODULUS
      ensures var e := Encode(Value());
              c == if fNegative && WordOf(e) != 0 then e + MANTISSA else e
    {
      ghost var x := Value();
      ValBound(pn[..], WIDTH);
      var n := Bits();
      BytesOfBits(x, n);
      var nSize := (n + 7) / 8;
      LeadingBounds(x);
      ByteLenFits(x);
      c := LeadingBytes(nSize);
      c := Assemble(nSize, c);
      EncodeFields(x);
      ghost var bit := 23;
      Pow24(bit + 1);
      OrSign(c, bit);
      if fNegative && WordOf(c) != 0 {
        c := Or32(c, MANTISSA);
      }
    }

    /** The three leading bytes, cut out by a shift and truncated to 32 bits. */
    method LeadingBytes(nSize: nat) returns (c: Limb)
      requires Valid() && nSize == ByteLen(Value())
      ensures c == Leading(Value())
    {
      if nSize <= 3 {
        var low := GetLow64();
        c := (low * Pow256(3 - nSize)) % BASE;
        LeadingSmall(Value(), low);
      } else {
        var bn := new Uint256.Copy(this);
        bn.ShiftRightAssign(8 * (nSize - 3));
        var low := bn.GetLow64();
        c := low % BASE;
        LeadingLarge(Value(), bn.Value(), low);
      }
    }

    /** Makes room for the sign bit if need be and adds the byte count. */
    static method Assemble(k: nat, m: Limb) returns (c: Limb)
      requires k <= 32 && m < EXPONENT
      ensures c == Pack(k, m)
    {
      var nSize := k;
      c := m;
      SignTest(m);
      if (c / MANTISSA) % 2 == 1 {
        c := c / 0x100;
        nSize := nSize + 1;
      }
      hide Shl32, Or32;
      var shift := 24;
      Pow24(shift);
      OrSize(c, nSize, shift);
      c := Or32(c, Shl32(nSize, shift));
    }

    method Clear()
      requires Valid()
      modifies pn
      ensures forall j :: 0 <= j < WIDTH ==> pn[j] == 0
      ensures Value() == 0
    {
      for i := 0 to WIDTH
        invariant forall j :: 0 <= j < i ==> pn[j] == 0
      {
        pn[i] := 0;
      }
      ValZero(pn[..], WIDTH);
    }
  }
}
