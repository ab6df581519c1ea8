/**
 Limb algorithms as digit descriptions, and the numbers those digits add up to.
 Each description says, limb by limb, what a loop leaves behind; the lemma beside
 it says which integer operation that is.
 */
module LimbSteps {
  import opened Limbs

  const WIDTH: nat := 8

  /** 2^256. */
  const MODULUS: nat := Weight(8)

  // ---------- Low limbs ----------

  lemma LowTwo(s: seq<Limb>)
    requires |s| >= 2
    ensures Val(s, 2) == s[0] + s[1] * BASE
  {
    assert Val(s, 1) == s[0] * Weight(0) + Val(s, 0);
    assert Weight(1) == BASE * Weight(0);
  }

  lemma LowWords(s: seq<Limb>)
    requires |s| == WIDTH
    requires forall k :: 2 <= k < WIDTH ==> s[k] == 0
    ensures Val(s, WIDTH) == s[0] + s[1] * BASE
  {
    LowTwo(s);
    ValTailZero(s, 2, WIDTH);
  }

  /** Equal upper limbs contribute equally. */
  lemma {:induction false} ValTail(s: seq<Limb>, t: seq<Limb>, m: nat, n: nat)
    requires m <= n <= |s| == |t|
    requires forall k :: m <= k < n ==> s[k] == t[k]
    ensures Val(t, n) - Val(t, m) == Val(s, n) - Val(s, m)
  {
    if m < n { ValTail(s, t, m, n - 1); }
  }

  // ---------- Addition ----------

  /** The carry into limb n when x and y are added. */
  ghost function AddCarry(x: seq<Limb>, y: seq<Limb>, n: nat): (c: nat)
    requires n <= |x| && n <= |y|
    ensures c <= 1
  {
    if n == 0 then 0 else (AddCarry(x, y, n - 1) + x[n - 1] + y[n - 1]) / BASE
  }

  /** Limb k of x + y. */
  ghost function AddDigit(x: seq<Limb>, y: seq<Limb>, k: nat): (d: Limb)
    requires k < |x| && k < |y|
  {
    (AddCarry(x, y, k) + x[k] + y[k]) % BASE
  }

  lemma {:induction false} AddDigits(x: seq<Limb>, y: seq<Limb>, z: seq<Limb>, n: nat)
    requires n <= |x| && n <= |y| && n <= |z|
    requires forall k :: 0 <= k < n ==> z[k] == AddDigit(x, y, k)
    ensures Val(z, n) + AddCarry(x, y, n) * Weight(n) == Val(x, n) + Val(y, n)
  {
    if n > 0 {
      var i := n - 1;
      AddDigits(x, y, z, i);
      AddCarryStep(x, y, i);
      AddStep(Val(x, i), Val(y, i), AddCarry(x, y, i), x[i], y[i], Val(z, i), z[i], AddCarry(x, y, n), Weight(i));
    }
  }

  lemma AddNext(x: seq<Limb>, y: seq<Limb>, i: nat)
    requires i < |x| && i < |y|
    ensures AddDigit(x, y, i) == (AddCarry(x, y, i) + x[i] + y[i]) % BASE
    ensures AddCarry(x, y, i + 1) == (AddCarry(x, y, i) + x[i] + y[i]) / BASE
  {}

  lemma AddCarryStep(x: seq<Limb>, y: seq<Limb>, i: nat)
    requires i < |x| && i < |y|
    ensures AddCarry(x, y, i) + x[i] + y[i]
         == AddDigit(x, y, i) + BASE * AddCarry(x, y, i + 1)
  {}

  lemma AddStep(x: int, y: int, c: int, xi: int, yi: int, z: int, lo: int, hi: int, w: int)
    requires z + c * w == x + y
    requires c + xi + yi == lo + BASE * hi
    ensures (z + lo * w) + hi * (BASE * w) == (x + xi * w) + (y + yi * w)
  {
    CarryStep(lo, hi, c + xi + yi, w);
    Distribute(c + xi, yi, w);
    Distribute(c, xi, w);
  }

  /** Splitting a limb sum into its digit and carry keeps its weighted value. */
  lemma CarryStep(lo: int, hi: int, n: int, w: int)
    requires n == lo + BASE * hi
    ensures lo * w + hi * (BASE * w) == n * w
  {
    Distribute(lo, BASE * hi, w);
  }

  /** A full-width result whose overflow is q is the sum modulo 2^256. */
  lemma Reduced(z: seq<Limb>, q: int, n: int)
    requires |z| == WIDTH && Val(z, WIDTH) + q * MODULUS == n
    ensures Val(z, WIDTH) == n % MODULUS
  {
    ValBound(z, WIDTH);
    DivUnique(n, MODULUS, q, Val(z, WIDTH));
  }

  // ---------- Complement, increment, negation ----------

  lemma {:induction false} ComplementDigits(x: seq<Limb>, z: seq<Limb>, n: nat)
    requires n <= |x| && n <= |z|
    requires forall k :: 0 <= k < n ==> z[k] == BASE - 1 - x[k]
    ensures Val(z, n) == Weight(n) - 1 - Val(x, n)
  {
    if n > 0 {
      ComplementDigits(x, z, n - 1);
      ComplementStep(x[n - 1], Weight(n - 1));
    }
  }

  lemma ComplementStep(x: int, w: int)
    ensures (BASE - 1 - x) * w == BASE * w - w - x * w
  {
    Distribute(BASE - 1, -x, w);
  }

  lemma {:induction false} AllOnes(x: seq<Limb>, n: nat)
    requires n <= |x|
    requires forall k :: 0 <= k < n ==> x[k] == BASE - 1
    ensures Val(x, n) == Weight(n) - 1
  {
    if n > 0 {
      AllOnes(x, n - 1);
      ComplementStep(0, Weight(n - 1));
    }
  }

  /** Limbs 0..i wrapped from all ones to zero and limb i, if any, took the carry. */
  lemma IncrementDigits(x: seq<Limb>, z: seq<Limb>, i: nat)
    requires |x| == |z| == WIDTH && i <= WIDTH
    requires forall k :: 0 <= k < i ==> x[k] == BASE - 1 && z[k] == 0
    requires i < WIDTH ==> x[i] < BASE - 1 && z[i] == x[i] + 1
    requires forall k :: i < k < WIDTH ==> z[k] == x[k]
    ensures Val(z, WIDTH) == (Val(x, WIDTH) + 1) % MODULUS
  {
    AllOnes(x, i);
    ValZero(z, i);
    if i < WIDTH {
      assert Val(z, i + 1) == Val(x, i + 1) + 1 by { Distribute(x[i], 1, Weight(i)); }
      ValTail(x, z, i + 1, WIDTH);
      Reduced(z, 0, Val(x, WIDTH) + 1);
    } else {
      Reduced(z, 1, Val(x, WIDTH) + 1);
    }
  }

  lemma ModSub(x: int, y: int, m: int)
    requires m > 0 && 0 <= y < m
    ensures (x + (m - y) % m) % m == (x - y) % m
  {
    if y == 0 {
      DivUnique(m, m, 1, 0);
    } else {
      DivUnique(m - y, m, 0, m - y);
      DivMod(x - y, m);
      Distribute((x - y) / m, 1, m);
      DivUnique(x - y + m, m, (x - y) / m + 1, (x - y) % m);
    }
  }

  // ---------- Multiplication ----------

  /** The carry into limb n when row f * b is added to a from limb j on. */
  ghost function RowCarry(a: seq<Limb>, j: nat, f: Limb, b: seq<Limb>, n: nat): (c: nat)
    requires j + n <= |a| && n <= |b|
    ensures c < BASE
  {
    if n == 0 then 0 else
      WordProduct(f, b[n - 1]);
      (RowCarry(a, j, f, b, n - 1) + a[j + n - 1] + f * b[n - 1]) / BASE
  }

  /** Limb j + k after the row has been added. */
  ghost function RowDigit(a: seq<Limb>, j: nat, f: Limb, b: seq<Limb>, k: nat): (d: Limb)
    requires j + k < |a| && k < |b|
  {
    (RowCarry(a, j, f, b, k) + a[j + k] + f * b[k]) % BASE
  }

  lemma RowNext(a: seq<Limb>, j: nat, f: Limb, b: seq<Limb>, i: nat)
    requires j + i < |a| && i < |b|
    ensures RowDigit(a, j, f, b, i) == (RowCarry(a, j, f, b, i) + a[j + i] + f * b[i]) % BASE
    ensures RowCarry(a, j, f, b, i + 1) == (RowCarry(a, j, f, b, i) + a[j + i] + f * b[i]) / BASE
  {}

  lemma WordProduct(a: Limb, b: Limb)
    ensures 0 <= a * b <= (BASE - 1) * (BASE - 1)
  {
    MulMono(a, BASE - 1, b);
    MulMono(b, BASE - 1, BASE - 1);
  }

  lemma {:induction false} RowDigits(a: seq<Limb>, j: nat, f: Limb, b: seq<Limb>, z: seq<Limb>, n: nat, fw: int)
    requires fw == f * Weight(j)
    requires j + n <= |a| == |z| && n <= |b|
    requires forall k :: 0 <= k < j ==> z[k] == a[k]
    requires forall k :: 0 <= k < n ==> z[j + k] == RowDigit(a, j, f, b, k)
    ensures Val(z, j + n) + RowCarry(a, j, f, b, n) * Weight(j + n) == Val(a, j + n) + fw * Val(b, n)
  {
    if n == 0 {
      ValPrefix(z, a, j);
    } else {
      var i := n - 1;
      RowDigits(a, j, f, b, z, i, fw);
      WeightAdd(j, i);
      RowCarryStep(a, j, f, b, i);
      hide RowCarry, RowDigit;
      RowStep(Val(a, j + i), f, Weight(j), fw, Val(b, i), RowCarry(a, j, f, b, i), a[j + i], b[i],
              Val(z, j + i), z[j + i], RowCarry(a, j, f, b, n), Weight(i), Weight(j + i));
    }
  }

  lemma RowCarryStep(a: seq<Limb>, j: nat, f: Limb, b: seq<Limb>, i: nat)
    requires j + i < |a| && i < |b|
    ensures RowCarry(a, j, f, b, i) + a[j + i] + f * b[i]
         == RowDigit(a, j, f, b, i) + BASE * RowCarry(a, j, f, b, i + 1)
  {
    DivMod(RowCarry(a, j, f, b, i) + a[j + i] + f * b[i], BASE);
  }

  lemma RowStep(a: int, f: int, wj: int, fw: int, b: int, c: int, ai: int, bi: int, z: int, lo: int, hi: int,
                wi: int, w: int)
    requires z + c * w == a + fw * b
    requires c + ai + f * bi == lo + BASE * hi
    requires w == wi * wj && fw == f * wj
    ensures (z + lo * w) + hi * (BASE * w) == (a + ai * w) + fw * (b + bi * wi)
  {
    CarryStep(lo, hi, c + ai + f * bi, w);
    Distribute(c + ai, f * bi, w);
    Distribute(c, ai, w);
    assert f * bi * (wi * wj) == f * wj * (bi * wi);
    Distribute(b, bi * wi, fw);
  }

  /** A row started at limb j adds f * 2^(32j) * b, up to a multiple of 2^256. */
  lemma RowDone(a: seq<Limb>, j: nat, f: Limb, b: seq<Limb>, z: seq<Limb>) returns (q: int)
    requires |a| == |z| == |b| == WIDTH && j < WIDTH
    requires forall k :: 0 <= k < j ==> z[k] == a[k]
    requires forall k :: 0 <= k < WIDTH - j ==> z[j + k] == RowDigit(a, j, f, b, k)
    ensures Val(z, WIDTH) + q * MODULUS == Val(a, WIDTH) + f * Weight(j) * Val(b, WIDTH)
  {
    var n := WIDTH - j;
    var fw := f * Weight(j);
    RowDigits(a, j, f, b, z, n, fw);
    var hi := ValSplit(b, n, WIDTH);
    WeightAdd(j, n);
    q := RowCarry(a, j, f, b, n) + f * hi;
    RowOverflow(f, Weight(j), fw, Val(b, n), hi, Weight(n), MODULUS, Val(b, WIDTH),
                Val(z, WIDTH), Val(a, WIDTH), RowCarry(a, j, f, b, n), q);
  }

  lemma RowOverflow(f: int, wj: int, fw: int, b: int, hi: int, wn: int, m: int, full: int, z: int, a: int,
                    c: int, q: int)
    requires wn * wj == m && fw == f * wj && full == b + hi * wn && q == c + f * hi
    requires z + c * m == a + fw * b
    ensures z + q * m == a + fw * full
  {
    Distribute(b, hi * wn, fw);
    assert f * wj * (hi * wn) == f * hi * (wn * wj);
    Distribute(c, f * hi, m);
  }

  /** A row added to nothing is the product by a word. */
  lemma MulWordDone(x: seq<Limb>, f: Limb, z: seq<Limb>, zero: seq<Limb>)
    requires |x| == |z| == |zero| == WIDTH
    requires forall k :: 0 <= k < WIDTH ==> zero[k] == 0
    requires forall k :: 0 <= k < WIDTH ==> z[0 + k] == RowDigit(zero, 0, f, x, k)
    ensures Val(z, WIDTH) == (Val(x, WIDTH) * f) % MODULUS
  {
    RowDigits(zero, 0, f, x, z, WIDTH, f);
    ValZero(zero, WIDTH);
    Reduced(z, RowCarry(zero, 0, f, x, WIDTH), Val(x, WIDTH) * f);
  }

  lemma MulRowStep(z: int, before: int, q: int, r: int, x: int, f: int, w: int, y: int, m: int)
    requires before + q * m == x * y
    requires z + r * m == before + f * w * y
    ensures z + (q + r) * m == (x + f * w) * y
  {
    Distribute(q, r, m);
    Distribute(x, f * w, y);
  }

  // ---------- Left shift ----------

  lemma ShlParts(x: Limb, s: nat)
    requires s < 32
    ensures x * Pow2(s) == Shl32(x, s) + BASE * Shr32(x, 32 - s)
    ensures Shl32(x, s) == (x % Pow2(32 - s)) * Pow2(s)
    ensures Shr32(x, 32 - s) < Pow2(s)
  {
    Shl32IsProduct(x, s);
    Shr32IsQuotient(x, 32 - s);
    Pow2Add(32 - s, s);
    Pow2Word(32 - s + s);
    SplitWord(x, Pow2(32 - s), Pow2(s));
  }

  lemma SplitWord(x: Limb, d: nat, p: nat)
    requires d > 0 && p > 0 && d * p == BASE
    ensures x * p == (x % d) * p + BASE * (x / d)
    ensures (x * p) % BASE == (x % d) * p
    ensures x / d < p
  {
    var q, r := x / d, x % d;
    DivMod(x, d);
    assert (q * d + r) * p == r * p + BASE * q by {
      Distribute(q * d, r, p);
      MulAssoc(q, d, p);
    }
    assert r * p < BASE by { MulMono(r, d - 1, p); Distribute(d, -1, p); }
    DivUnique(x * p, BASE, q, r * p);
    if q >= p { MulMono(p, q, d); }
  }

  /** A shift by a whole limb leaves nothing of it. */
  lemma WholeShift(x: Limb, n: nat)
    requires n == 32
    ensures Shl32(x, n) == 0 && Shr32(x, n) == 0
  {
    Pow2Word(n);
    assert Shl32(x, n) == 0 by { Shl32IsProduct(x, n); DivUnique(x * BASE, BASE, x, 0); }
    Shr32IsQuotient(x, n);
  }

  lemma OrZero(x: Limb)
    ensures Or32(0, x) == x
  {
    OrIsSum(0, x, 0);
  }

  /** The bits moved up from the limb below do not meet the bits that stay. */
  lemma ShlOr(below: Limb, x: Limb, s: nat)
    requires s < 32
    ensures Or32(Shr32(below, 32 - s), Shl32(x, s)) == Shl32(x, s) + Shr32(below, 32 - s)
    ensures Or32(0, Shl32(x, s)) == Shl32(x, s)
  {
    ShlParts(below, s);
    ShlParts(x, s);
    OrIsSum(Shr32(below, 32 - s), x % Pow2(32 - s), s);
    OrZero(Shl32(x, s));
    MultipleBelow(x % Pow2(32 - s), Pow2(32 - s), Pow2(s));
    Pow2Add(32 - s, s);
    Pow2Word(32 - s + s);
  }

  lemma MultipleBelow(r: int, d: int, p: nat)
    requires r < d
    ensures r * p + p <= d * p
  {
    MulMono(r, d - 1, p);
    Distribute(d, -1, p);
  }

  /** What a left shift by 32k + s leaves in limb j. */
  ghost function ShlDigit(x: seq<Limb>, k: nat, s: nat, j: nat): int
    requires s < 32 && j < |x|
  {
    if j < k then 0
    else Shl32(x[j - k], s) + (if j == k then 0 else Shr32(x[j - k - 1], 32 - s))
  }

  /** The accumulator after i limbs have been shifted left by 32k + s. */
  ghost function ShlLoop(x: seq<Limb>, k: nat, s: nat, i: nat): (z: seq<Limb>)
    requires |x| == WIDTH && s < 32 && i <= WIDTH
    ensures |z| == WIDTH
  {
    if i == 0 then seq(WIDTH, _ => 0) else ShlTurn(ShlLoop(x, k, s, i - 1), x[i - 1], k, s, i - 1)
  }

  /** One turn of that loop. */
  ghost function ShlTurn(z: seq<Limb>, limb: Limb, k: nat, s: nat, i: nat): (r: seq<Limb>)
    requires |z| == WIDTH && s < 32
    ensures |r| == WIDTH
  {
    var z1 := if i + k + 1 < WIDTH && s != 0 then z[i + k + 1 := Or32(z[i + k + 1], Shr32(limb, 32 - s))] else z;
    if i + k < WIDTH then z1[i + k := Or32(z1[i + k], Shl32(limb, s))] else z1
  }

  ghost predicate ShlSoFar(x: seq<Limb>, k: nat, s: nat, i: nat, z: seq<Limb>)
    requires |x| == |z| == WIDTH && s < 32 && i <= WIDTH
  {
    && (forall j :: 0 <= j < WIDTH && j < i + k ==> z[j] == ShlDigit(x, k, s, j))
    && (i + k < WIDTH ==> z[i + k] == (if i == 0 then 0 else Shr32(x[i - 1], 32 - s)))
    && (forall j :: i + k < j < WIDTH ==> z[j] == 0)
  }

  lemma {:induction false} ShlLoopDigits(x: seq<Limb>, k: nat, s: nat, i: nat)
    requires |x| == WIDTH && s < 32 && i <= WIDTH
    ensures ShlSoFar(x, k, s, i, ShlLoop(x, k, s, i))
  {
    hide Or32, Shl32, Shr32;
    if i > 0 {
      ShlLoopDigits(x, k, s, i - 1);
      OrZero(Shr32(x[i - 1], 32 - s));
      ShlOr(if i == 1 then 0 else x[i - 2], x[i - 1], s);
      if s == 0 { WholeShift(x[i - 1], 32 - s); }
    }
  }

  lemma {:induction false} ShlDigits(x: seq<Limb>, k: nat, s: nat, z: seq<Limb>, n: nat)
    requires s < 32 && k + n <= |x| == |z|
    requires forall j :: 0 <= j < k + n ==> z[j] == ShlDigit(x, k, s, j)
    ensures Val(z, k + n) + (if n == 0 then 0 else Shr32(x[n - 1], 32 - s)) * Weight(k + n)
         == Val(x, n) * (Pow2(s) * Weight(k))
  {
    if n == 0 {
      ValZero(z, k);
    } else {
      var i := n - 1;
      ShlDigits(x, k, s, z, i);
      WeightAdd(k, i);
      ShlParts(x[i], s);
      ShlStep(Val(x, i), x[i], Weight(i), Pow2(s), Weight(k), Val(z, k + i),
              if i == 0 then 0 else Shr32(x[i - 1], 32 - s), Shl32(x[i], s), Shr32(x[i], 32 - s), Weight(k + i));
    }
  }

  lemma ShlStep(x: int, xi: int, wi: int, ps: int, wk: int, z: int, top: int, lo: int, hi: int, w: int)
    requires w == wi * wk
    requires z + top * w == x * (ps * wk)
    requires xi * ps == lo + BASE * hi
    ensures (z + (lo + top) * w) + hi * (BASE * w) == (x + xi * wi) * (ps * wk)
  {
    CarryStep(lo, hi, xi * ps, w);
    Distribute(lo, top, w);
    Distribute(x, xi * wi, ps * wk);
    assert xi * wi * (ps * wk) == xi * ps * (wi * wk);
  }

  /** Left shift is multiplication modulo 2^256, whatever the shift is. */
  lemma ShlDone(x: seq<Limb>, shift: nat, z: seq<Limb>)
    requires |x| == WIDTH && z == ShlLoop(x, shift / 32, shift % 32, WIDTH)
    ensures Val(z, WIDTH) == (Val(x, WIDTH) * Pow2(shift)) % MODULUS
  {
    ShiftWeight(shift);
    ShlLoopDigits(x, shift / 32, shift % 32, WIDTH);
    if shift / 32 >= WIDTH {
      ShlFar(x, shift / 32, shift % 32, z, Pow2(shift));
    } else {
      ShlNear(x, shift / 32, shift % 32, z, Pow2(shift));
    }
  }

  lemma ShlFar(x: seq<Limb>, k: nat, s: nat, z: seq<Limb>, p: nat)
    requires |x| == |z| == WIDTH && s < 32 && k >= WIDTH && p == Pow2(s) * Weight(k)
    requires forall j :: 0 <= j < WIDTH ==> z[j] == ShlDigit(x, k, s, j)
    ensures Val(z, WIDTH) == (Val(x, WIDTH) * p) % MODULUS
  {
    ValZero(z, WIDTH);
    WeightAdd(WIDTH, k - WIDTH);
    ShlAway(Val(x, WIDTH), Pow2(s), Weight(k - WIDTH), MODULUS, Weight(k), p);
  }

  lemma ShlNear(x: seq<Limb>, k: nat, s: nat, z: seq<Limb>, p: nat)
    requires |x| == |z| == WIDTH && s < 32 && k < WIDTH && p == Pow2(s) * Weight(k)
    requires forall j :: 0 <= j < WIDTH ==> z[j] == ShlDigit(x, k, s, j)
    ensures Val(z, WIDTH) == (Val(x, WIDTH) * p) % MODULUS
  {
    var n := WIDTH - k;
    ShlDigits(x, k, s, z, n);
    var hi := ValSplit(x, n, WIDTH);
    WeightAdd(k, n);
    ValBound(z, WIDTH);
    ShlOverflow(Val(x, n), hi, Weight(n), Pow2(s), Weight(k), Val(z, WIDTH), Shr32(x[n - 1], 32 - s), MODULUS,
                Val(x, WIDTH), p);
  }

  lemma ShlOverflow(low: int, hi: int, wn: int, ps: int, wk: int, z: int, top: int, m: int, x: int, p: int)
    requires m > 0 && wn * wk == m && 0 <= z < m
    requires x == low + hi * wn && p == ps * wk
    requires z + top * m == low * (ps * wk)
    ensures z == (x * p) % m
  {
    Distribute(low, hi * wn, ps * wk);
    assert hi * wn * (ps * wk) == hi * ps * (wn * wk);
    Distribute(top, hi * ps, m);
    DivUnique(x * p, m, top + hi * ps, z);
  }

  lemma ShlAway(v: int, ps: int, w: int, m: int, wk: int, p: int)
    requires m > 0 && wk == w * m && p == ps * wk
    ensures (v * p) % m == 0
  {
    assert v * (ps * (w * m)) == v * ps * w * m;
    DivUnique(v * p, m, v * ps * w, 0);
  }

  lemma ShiftWeight(shift: nat)
    ensures Pow2(shift) == Pow2(shift % 32) * Weight(shift / 32)
  {
    Pow2Add(shift % 32, 32 * (shift / 32));
    WeightIsPow2(shift / 32);
  }

  // ---------- Right shift ----------

  lemma ShrParts(x: Limb, s: nat)
    requires s < 32
    ensures x * Pow2(32 - s) == Shl32(x, 32 - s) + BASE * Shr32(x, s)
    ensures Shl32(x, 32 - s) == (x % Pow2(s)) * Pow2(32 - s)
    ensures Shr32(x, s) < Pow2(32 - s)
    ensures s == 0 ==> Shl32(x, 32 - s) == 0
  {
    Shl32IsProduct(x, 32 - s);
    Shr32IsQuotient(x, s);
    Pow2Add(s, 32 - s);
    Pow2Word(s + (32 - s));
    SplitWord(x, Pow2(s), Pow2(32 - s));
  }

  lemma ShrOr(below: Limb, x: Limb, s: nat)
    requires 0 < s < 32
    ensures Or32(Shr32(below, s), Shl32(x, 32 - s)) == Shr32(below, s) + Shl32(x, 32 - s)
  {
    ShrParts(below, s);
    ShrParts(x, s);
    OrIsSum(Shr32(below, s), x % Pow2(s), 32 - s);
    MultipleBelow(x % Pow2(s), Pow2(s), Pow2(32 - s));
    Pow2Add(s, 32 - s);
    Pow2Word(s + (32 - s));
  }

  /** What a right shift by 32k + s leaves in limb j. */
  ghost function ShrDigit(x: seq<Limb>, k: nat, s: nat, j: nat): int
    requires s < 32
  {
    if j + k >= |x| then 0
    else Shr32(x[j + k], s) + (if j + k + 1 >= |x| then 0 else Shl32(x[j + k + 1], 32 - s))
  }

  /** The accumulator after i limbs have been shifted right by 32k + s. */
  ghost function ShrLoop(x: seq<Limb>, k: nat, s: nat, i: nat): (z: seq<Limb>)
    requires |x| == WIDTH && s < 32 && i <= WIDTH
    ensures |z| == WIDTH
  {
    if i == 0 then seq(WIDTH, _ => 0) else ShrTurn(ShrLoop(x, k, s, i - 1), x[i - 1], k, s, i - 1)
  }

  /** One turn of that loop. */
  ghost function ShrTurn(z: seq<Limb>, limb: Limb, k: nat, s: nat, i: nat): (r: seq<Limb>)
    requires |z| == WIDTH && s < 32 && i < WIDTH
    ensures |r| == WIDTH
  {
    var z1 := if i >= k + 1 && s != 0 then z[i - k - 1 := Or32(z[i - k - 1], Shl32(limb, 32 - s))] else z;
    if i >= k then z1[i - k := Or32(z1[i - k], Shr32(limb, s))] else z1
  }

  ghost predicate ShrSoFar(x: seq<Limb>, k: nat, s: nat, i: nat, z: seq<Limb>)
    requires |x| == |z| == WIDTH && s < 32 && i <= WIDTH
  {
    && (forall j :: 0 <= j < WIDTH && j < i - k - 1 ==> z[j] == ShrDigit(x, k, s, j))
    && (i >= k + 1 ==> z[i - k - 1] == Shr32(x[i - 1], s))
    && (forall j :: 0 <= j < WIDTH && j >= i - k ==> z[j] == 0)
  }

  lemma {:induction false} ShrLoopDigits(x: seq<Limb>, k: nat, s: nat, i: nat)
    requires |x| == WIDTH && s < 32 && i <= WIDTH
    ensures ShrSoFar(x, k, s, i, ShrLoop(x, k, s, i))
  {
    hide Or32, Shl32, Shr32;
    if i > 0 {
      ShrLoopDigits(x, k, s, i - 1);
      OrZero(Shr32(x[i - 1], s));
      if s == 0 { WholeShift(x[i - 1], 32 - s); }
      if i > 1 && s != 0 { ShrOr(x[i - 2], x[i - 1], s); }
    }
  }

  /** The bits of limb j that fall below bit s. */
  ghost function Below(x: seq<Limb>, s: nat, j: nat): (r: nat)
    ensures r < Pow2(s)
  {
    if j < |x| then x[j] % Pow2(s) else 0
  }

  lemma {:induction false} ShrDigits(x: seq<Limb>, k: nat, s: nat, z: seq<Limb>, n: nat)
    requires s < 32 && k + n <= |x| == |z|
    requires forall j :: 0 <= j < n ==> z[j] == ShrDigit(x, k, s, j)
    ensures Val(z, n) * (Pow2(s) * Weight(k)) + Below(x, s, k) * Weight(k)
         == Val(x, k + n) - Val(x, k) + Below(x, s, k + n) * Weight(k + n)
    ensures k + n == |x| ==> Val(z, n) * (Pow2(s) * Weight(k)) + Below(x, s, k) * Weight(k) == Val(x, k + n) - Val(x, k)
  {
    if n > 0 {
      var i := n - 1;
      ShrDigits(x, k, s, z, i);
      WeightAdd(k, i);
      ShrDigitParts(x, k, s, i);
      ShrStep(Val(z, i), z[i], Pow2(s), Weight(k), Weight(i), Weight(k + i), Below(x, s, k) * Weight(k),
              Val(x, k + i) - Val(x, k), x[k + i], Below(x, s, k + i), Below(x, s, k + n));
    }
  }

  lemma ShrDigitParts(x: seq<Limb>, k: nat, s: nat, j: nat)
    requires s < 32 && j + k < |x|
    ensures ShrDigit(x, k, s, j) * Pow2(s) == x[j + k] - Below(x, s, j + k) + BASE * Below(x, s, j + k + 1)
  {
    var lo, hi := Shr32(x[j + k], s), if j + k + 1 >= |x| then 0 else Shl32(x[j + k + 1], 32 - s);
    assert lo * Pow2(s) == x[j + k] - Below(x, s, j + k) by { Shr32IsQuotient(x[j + k], s); DivMod(x[j + k], Pow2(s)); }
    assert hi == Below(x, s, j + k + 1) * Pow2(32 - s) by {
      if j + k + 1 < |x| { ShrParts(x[j + k + 1], s); }
    }
    assert Pow2(32 - s) * Pow2(s) == BASE by { Pow2Add(32 - s, s); Pow2Word(32 - s + s); }
    ShrDigitStep(lo, hi, Below(x, s, j + k + 1), Pow2(32 - s), Pow2(s));
  }

  lemma ShrDigitStep(lo: int, hi: int, r: int, d: int, p: int)
    requires hi == r * d && d * p == BASE
    ensures (lo + hi) * p == lo * p + BASE * r
  {
    Distribute(lo, hi, p);
    MulAssoc(r, d, p);
  }

  lemma ShrStep(z: int, zi: int, ps: int, wk: int, wi: int, w: int, c: int, x: int, xi: int, ri: int, rn: int)
    requires w == wi * wk
    requires z * (ps * wk) + c == x + ri * w
    requires zi * ps == xi - ri + BASE * rn
    ensures (z + zi * wi) * (ps * wk) + c == x + xi * w + rn * (BASE * w)
  {
    Distribute(z, zi * wi, ps * wk);
    assert zi * wi * (ps * wk) == zi * ps * (wi * wk);
    Distribute(xi - ri, BASE * rn, w);
    Distribute(xi, -ri, w);
    MulAssoc(BASE, rn, w);
  }

  /** Right shift is floor division by the power of two, whatever the shift is. */
  lemma ShrDone(x: seq<Limb>, shift: nat, z: seq<Limb>)
    requires |x| == WIDTH && z == ShrLoop(x, shift / 32, shift % 32, WIDTH)
    ensures Val(z, WIDTH) == Val(x, WIDTH) / Pow2(shift)
  {
    ShiftWeight(shift);
    ShrLoopDigits(x, shift / 32, shift % 32, WIDTH);
    if shift / 32 >= WIDTH {
      ShrFar(x, shift / 32, shift % 32, z, Pow2(shift));
    } else {
      ShrNear(x, shift / 32, shift % 32, z, Pow2(shift));
    }
  }

  lemma ShrFar(x: seq<Limb>, k: nat, s: nat, z: seq<Limb>, p: nat)
    requires |x| == |z| == WIDTH && s < 32 && k >= WIDTH && p == Pow2(s) * Weight(k)
    requires forall j :: 0 <= j < WIDTH ==> z[j] == ShrDigit(x, k, s, j)
    ensures p > 0 && Val(z, WIDTH) == Val(x, WIDTH) / p
  {
    ValZero(z, WIDTH);
    ValBound(x, WIDTH);
    WeightAdd(WIDTH, k - WIDTH);
    ShrAway(Val(x, WIDTH), Pow2(s), Weight(k - WIDTH), MODULUS, Weight(k), p);
  }

  lemma ShrNear(x: seq<Limb>, k: nat, s: nat, z: seq<Limb>, p: nat)
    requires |x| == |z| == WIDTH && s < 32 && k < WIDTH && p == Pow2(s) * Weight(k)
    requires forall j :: 0 <= j < WIDTH ==> z[j] == ShrDigit(x, k, s, j)
    ensures p > 0 && Val(z, WIDTH) == Val(x, WIDTH) / p
  {
    hide Val, Pow2, Weight;
    var n := WIDTH - k;
    ShrDigits(x, k, s, z, n);
    ValBound(x, k);
    ValTailZero(z, n, WIDTH);
    ShrFloor(Val(z, n), Pow2(s), Weight(k), Below(x, s, k), Val(x, k), Val(x, WIDTH), p);
  }

  lemma {:induction false} ValTailZero(z: seq<Limb>, m: nat, n: nat)
    requires m <= n <= |z|
    requires forall k :: m <= k < n ==> z[k] == 0
    ensures Val(z, n) == Val(z, m)
  {
    if m < n { ValTailZero(z, m, n - 1); }
  }

  lemma ShrFloor(z: int, ps: int, wk: int, r: int, low: int, x: int, p: int)
    requires ps > 0 && wk > 0 && 0 <= r < ps && 0 <= low < wk && p == ps * wk
    requires z * (ps * wk) + r * wk == x - low
    ensures p > 0 && z == x / p
  {
    MulMono(1, ps, wk);
    MulMono(r, ps - 1, wk);
    Distribute(ps, -1, wk);
    DivUnique(x, p, z, r * wk + low);
  }

  lemma ShrAway(v: int, ps: int, w: int, m: int, wk: int, p: int)
    requires 0 <= v < m && ps >= 1 && w >= 1 && wk == w * m && p == ps * wk
    ensures p > 0 && v / p == 0
  {
    MulAssoc(ps, w, m);
    MulMono(1, ps, w);
    MulMono(1, ps * w, m);
    DivUnique(v, p, 0, v);
  }

  // ---------- Comparison and bit length ----------

  lemma TopLimbDecides(x: seq<Limb>, y: seq<Limb>, i: nat)
    requires |x| == |y| == WIDTH && i < WIDTH
    requires x[i] < y[i]
    requires forall k :: i < k < WIDTH ==> x[k] == y[k]
    ensures Val(x, WIDTH) < Val(y, WIDTH)
  {
    ValBound(x, i);
    assert x[i] * Weight(i) + Weight(i) <= y[i] * Weight(i) by {
      MulMono(x[i] + 1 as int, y[i], Weight(i));
      Distribute(x[i], 1, Weight(i));
    }
    ValTail(x, y, i + 1, WIDTH);
  }

  lemma HighLimbExceedsWord(x: seq<Limb>, i: nat)
    requires |x| == WIDTH && 2 <= i < WIDTH && x[i] != 0
    ensures Val(x, WIDTH) >= BASE * BASE
  {
    var hi := ValSplit(x, i + 1, WIDTH);
    MulMono(0, hi, Weight(i + 1));
    MulMono(1, x[i], Weight(i));
    WeightAdd(2, i - 2);
    MulMono(1, Weight(i - 2), Weight(2));
    assert Weight(2) == BASE * BASE;
  }

  /** n is the position of the highest set bit of v plus one, zero for zero. */
  ghost predicate IsBitLength(v: nat, n: nat)
  {
    if n == 0 then v == 0 else Pow2(n - 1) <= v < Pow2(n)
  }

  lemma BitClear(x: Limb, n: nat)
    requires x < Pow2(n + 1) && Shr32(x, n) % 2 != 1
    ensures x < Pow2(n)
  {
    Shr32IsQuotient(x, n);
    DivMod(x, Pow2(n));
    if x >= Pow2(n) {
      DivUnique(x, Pow2(n), 1, x - Pow2(n));
    }
  }

  lemma TopBit(x: seq<Limb>, pos: nat, n: nat)
    requires |x| == WIDTH && pos < WIDTH && n < 32
    requires forall k :: pos < k < WIDTH ==> x[k] == 0
    requires x[pos] != 0 && x[pos] < Pow2(n + 1) && (n > 0 ==> Shr32(x[pos], n) % 2 == 1)
    ensures IsBitLength(Val(x, WIDTH), 32 * pos + n + 1)
  {
    ValTailZero(x, pos + 1, WIDTH);
    assert Val(x, pos + 1) == Val(x, pos) + x[pos] * Weight(pos);
    hide Val, Weight;
    ValBound(x, pos);
    WeightIsPow2(pos);
    Pow2Add(n, 32 * pos);
    Pow2Add(n + 1, 32 * pos);
    HasTopBit(x[pos], n);
    hide Pow2;
    MulMono(Pow2(n), x[pos], Weight(pos));
    MultipleBelow(x[pos], Pow2(n + 1), Weight(pos));
  }

  lemma HasTopBit(limb: Limb, n: nat)
    requires n < 32 && limb != 0 && (n > 0 ==> Shr32(limb, n) % 2 == 1)
    ensures limb >= Pow2(n)
  {
    Shr32IsQuotient(limb, n);
    if n > 0 && limb < Pow2(n) { DivUnique(limb, Pow2(n), 0, limb); }
  }

  // ---------- Division ----------

  lemma ShorterIsLess(n: nat, nb: nat, d: nat, db: nat)
    requires IsBitLength(n, nb) && IsBitLength(d, db) && db > nb
    ensures d > 0 && n / d == 0
  {
    Pow2Mono(nb, db - 1);
    DivUnique(n, d, 0, n);
  }

  /** Aligned with the dividend's top bit, the divisor exceeds half of the dividend. */
  lemma AlignedIsEnough(n: nat, nb: nat, d: nat, db: nat)
    requires IsBitLength(n, nb) && IsBitLength(d, db) && 0 < db <= nb
    ensures n < d * Pow2(nb - db + 1)
  {
    Pow2Add(db - 1, nb - db + 1);
    MulMono(Pow2(db - 1), d, Pow2(nb - db + 1));
  }

  /** Aligning the divisor loses no bit. */
  lemma AlignedFits(d: nat, db: nat, nb: nat)
    requires IsBitLength(d, db) && 0 < db <= nb <= 256
    ensures (d * Pow2(nb - db)) % MODULUS == d * Pow2(nb - db)
  {
    Pow2Add(db, nb - db);
    PowerFits(nb);
    FitsBelow(d, Pow2(db), Pow2(nb - db), MODULUS);
  }

  lemma PowerFits(n: nat)
    requires n <= 256
    ensures Pow2(n) <= MODULUS
  {
    Pow2Mono(n, 32 * WIDTH);
    WeightIsPow2(WIDTH);
  }

  lemma WordFits(x: Word64)
    ensures x % MODULUS == x
  {
    WeightAdd(2, 6);
    MulMono(1, Weight(6), Weight(2));
    assert Weight(2) == BASE * BASE;
    DivUnique(x, MODULUS, 0, x);
  }

  lemma FitsBelow(d: nat, t: int, p: nat, m: int)
    requires d < t && t * p <= m && p > 0
    ensures (d * p) % m == d * p
  {
    MultipleBelow(d, t, p);
    MulMono(0, d, p);
    DivUnique(d * p, m, 0, d * p);
  }

  /** The loop state: q quotient bits at and above `s`, remainder r still below d * 2^s. */
  ghost predicate DivState(q: seq<Limb>, r: nat, n: nat, d: nat, s: nat)
  {
    && |q| == WIDTH
    && n == Val(q, WIDTH) * d + r
    && r < d * Pow2(s)
    && s <= 256
    && LowBitsClear(q, s)
  }

  /** No bit below s is set. */
  ghost predicate LowBitsClear(q: seq<Limb>, s: nat)
    requires |q| == WIDTH
  {
    && (forall k :: 0 <= k < WIDTH && k < s / 32 ==> q[k] == 0)
    && (s / 32 < WIDTH ==> q[s / 32] % Pow2(s % 32) == 0)
  }

  lemma DivStart(q: seq<Limb>, n: nat, d: nat, s: nat)
    requires |q| == WIDTH && s < 256 && n < d * Pow2(s + 1)
    requires forall k :: 0 <= k < WIDTH ==> q[k] == 0
    ensures DivState(q, n, n, d, s + 1)
  {
    hide Val;
    ValZero(q, WIDTH);
    NoBitSet(q, s + 1);
  }

  lemma NoBitSet(q: seq<Limb>, s: nat)
    requires |q| == WIDTH && forall k :: 0 <= k < WIDTH ==> q[k] == 0
    ensures LowBitsClear(q, s)
  {
    var p := Pow2(s % 32);
    hide Pow2;
    DivUnique(0, p, 0, 0);
  }

  lemma DivSkip(q: seq<Limb>, r: nat, n: nat, d: nat, s: nat)
    requires DivState(q, r, n, d, s + 1) && r < d * Pow2(s)
    ensures DivState(q, r, n, d, s)
  {
    var h := ClearedLimb(q, s);
    DivUnique(q[s / 32], Pow2(s % 32), 2 * h, 0);
  }

  /** The limb that receives bit s is still a multiple of the next power. */
  lemma ClearedLimb(q: seq<Limb>, s: nat) returns (h: nat)
    requires |q| == WIDTH && s < 256 && LowBitsClear(q, s + 1)
    ensures q[s / 32] == h * Pow2(s % 32 + 1) == 2 * h * Pow2(s % 32)
  {
    NextPlace(s);
    var p := Pow2(s % 32);
    assert Pow2(s % 32 + 1) == 2 * p;
    hide Pow2;
    if s % 32 == 31 {
      h := 0;
    } else {
      DivMod(q[s / 32], 2 * p);
      h := q[s / 32] / (2 * p);
      DivShrinks(q[s / 32], 2 * p);
    }
    DoubleWeight(h, p);
  }

  lemma NextPlace(s: nat)
    ensures if s % 32 == 31 then (s + 1) / 32 == s / 32 + 1 else (s + 1) / 32 == s / 32 && (s + 1) % 32 == s % 32 + 1
  {}

  lemma DoubleWeight(h: int, p: int)
    ensures h * (2 * p) == 2 * h * p
  {}

  lemma DivTake(q: seq<Limb>, r: nat, n: nat, d: nat, s: nat, q': seq<Limb>, r': nat)
    requires DivState(q, r, n, d, s + 1) && d * Pow2(s) <= r < MODULUS
    requires q' == q[s / 32 := Or32(q[s / 32], Shl32(1, s % 32))]
    requires r' == (r - d * Pow2(s)) % MODULUS
    ensures DivState(q', r', n, d, s)
  {
    SetBit(q, s, q');
    TakeStep(Val(q, WIDTH), Pow2(s), d, n, r, MODULUS, Val(q', WIDTH), r');
  }

  lemma TakeStep(q: int, p: nat, d: nat, n: int, r: int, m: int, q': int, r': int)
    requires n == q * d + r && d * p <= r < d * (2 * p) && r < m
    requires m > 0 && q' == q + p && r' == (r - d * p) % m
    ensures n == q' * d + r' && r' < d * p
  {
    Distribute(q, p, d);
    MulMono(0, p, d);
    DivUnique(r - d * p, m, 0, r - d * p);
  }

  /** Or-ing bit s into a quotient clear up to s adds 2^s and keeps the bits below clear. */
  lemma SetBit(q: seq<Limb>, s: nat, q': seq<Limb>)
    requires |q| == WIDTH && s < 256 && LowBitsClear(q, s + 1)
    requires q' == q[s / 32 := Or32(q[s / 32], Shl32(1, s % 32))]
    ensures Val(q', WIDTH) == Val(q, WIDTH) + Pow2(s)
    ensures LowBitsClear(q', s)
  {
    var i, t := s / 32, s % 32;
    var h := ClearedLimb(q, s);
    SetBitInLimb(q[i], h, t);
    ValAddAt(q, q', i, Pow2(t));
    ShiftWeight(s);
  }

  lemma SetBitInLimb(x: Limb, h: nat, t: nat)
    requires t < 32 && x == h * Pow2(t + 1) == 2 * h * Pow2(t)
    ensures Or32(x, Shl32(1, t)) == x + Pow2(t)
    ensures (x + Pow2(t)) % Pow2(t) == 0
  {
    BitInWord(t);
    OrIsSum(Pow2(t), h, t + 1);
    Distribute(2 * h, 1, Pow2(t));
    DivUnique(x + Pow2(t), Pow2(t), 2 * h + 1, 0);
  }

  lemma ValAddAt(x: seq<Limb>, z: seq<Limb>, i: nat, delta: int)
    requires |x| == |z| == WIDTH && i < WIDTH && z[i] == x[i] + delta
    requires forall k :: 0 <= k < WIDTH && k != i ==> z[k] == x[k]
    ensures Val(z, WIDTH) == Val(x, WIDTH) + delta * Weight(i)
  {
    ValPrefix(x, z, i);
    Distribute(x[i], delta, Weight(i));
    ValTail(x, z, i + 1, WIDTH);
  }

  lemma BitInWord(t: nat)
    requires t < 32
    ensures Shl32(1, t) == Pow2(t) < Pow2(t + 1)
  {
    Shl32IsProduct(1, t);
    Pow2Mono(t + 1, 32);
    Pow2Word(32);
    DivUnique(Pow2(t), BASE, 0, Pow2(t));
  }

  lemma HalveDivisor(d: nat, s: nat)
    requires s > 0
    ensures (d * Pow2(s)) / Pow2(1) == d * Pow2(s - 1)
  {
    Halve(d, Pow2(s - 1));
    assert Pow2(1) == 2 * Pow2(0);
  }

  lemma DivFinish(q: seq<Limb>, r: nat, n: nat, d: nat)
    requires DivState(q, r, n, d, 0)
    ensures d > 0 && Val(q, WIDTH) == n / d
  {
    DivUnique(n, d, Val(q, WIDTH), r);
  }
}
