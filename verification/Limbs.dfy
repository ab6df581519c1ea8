/** Little-endian 32-bit limbs and the numbers they stand for. */
module Limbs {

  const BASE: nat := 0x1_0000_0000

  type Byte = x: int | 0 <= x < 0x100
  type Limb = x: int | 0 <= x < 0x1_0000_0000
  type Word64 = x: int | 0 <= x < 0x1_0000_0000_0000_0000
  type Int64 = x: int | -0x8000_0000_0000_0000 <= x < 0x8000_0000_0000_0000

  /** The casts between signed and unsigned 64-bit integers. */
  function Unsigned(v: Int64): Word64 { if v < 0 then v + 0x1_0000_0000_0000_0000 else v }
  function Signed(w: Word64): Int64 { if w >= 0x8000_0000_0000_0000 then w - 0x1_0000_0000_0000_0000 else w }

  /** A difference that 64-bit subtraction can hold. */
  predicate DifferenceFits(a: Int64, b: Int64) { -0x8000_0000_0000_0000 <= a as int - b < 0x8000_0000_0000_0000 }

  /** 2 to the power n. */
  function Pow2(n: nat): (p: nat)
    ensures p >= 1
  {
    if n == 0 then 1 else 2 * Pow2(n - 1)
  }

  /** The weight of limb n. */
  function Weight(n: nat): (p: nat)
    ensures p >= 1
  {
    if n == 0 then 1 else BASE * Weight(n - 1)
  }

  /** The number held by the n lowest limbs of s. */
  ghost function Val(s: seq<Limb>, n: nat): (v: nat)
    requires n <= |s|
  {
    if n == 0 then 0 else Val(s, n - 1) + s[n - 1] * Weight(n - 1)
  }

  lemma {:induction false} ValPrefix(s: seq<Limb>, t: seq<Limb>, n: nat)
    requires n <= |s| && n <= |t|
    requires forall k :: 0 <= k < n ==> s[k] == t[k]
    ensures Val(s, n) == Val(t, n)
  {
    if n > 0 { ValPrefix(s, t, n - 1); }
  }

  lemma {:induction false} ValBound(s: seq<Limb>, n: nat)
    requires n <= |s|
    ensures Val(s, n) < Weight(n)
  {
    if n > 0 {
      ValBound(s, n - 1);
      MulMono(s[n - 1], BASE - 1, Weight(n - 1));
    }
  }

  lemma {:induction false} ValZero(s: seq<Limb>, n: nat)
    requires n <= |s|
    requires forall k :: 0 <= k < n ==> s[k] == 0
    ensures Val(s, n) == 0
  {
    if n > 0 { ValZero(s, n - 1); }
  }

  /** The limbs from m up to n, as a multiple of the weight of limb m. */
  lemma {:induction false} ValSplit(s: seq<Limb>, m: nat, n: nat) returns (hi: nat)
    requires m <= n <= |s|
    ensures Val(s, n) == Val(s, m) + hi * Weight(m)
    ensures hi < Weight(n - m)
  {
    if m == n {
      hi := 0;
    } else {
      var h := ValSplit(s, m, n - 1);
      WeightAdd(m, n - 1 - m);
      hi := h + s[n - 1] * Weight(n - 1 - m);
      Distribute(h, s[n - 1] * Weight(n - 1 - m), Weight(m));
      MulAssoc(s[n - 1], Weight(n - 1 - m), Weight(m));
      MulMono(s[n - 1], BASE - 1, Weight(n - 1 - m));
    }
  }

  lemma {:induction false} WeightAdd(m: nat, n: nat)
    ensures Weight(m + n) == Weight(n) * Weight(m)
  {
    if n > 0 {
      WeightAdd(m, n - 1);
      MulAssoc(BASE, Weight(n - 1), Weight(m));
    }
  }

  lemma {:induction false} WeightIsPow2(n: nat)
    ensures Weight(n) == Pow2(32 * n)
  {
    if n > 0 {
      WeightIsPow2(n - 1);
      Pow2Add(32 * n - 32 * (n - 1), 32 * (n - 1));
      Pow2Word(32 * n - 32 * (n - 1));
    }
  }

  lemma {:induction false} Pow2Add(m: nat, n: nat)
    ensures Pow2(m + n) == Pow2(m) * Pow2(n)
  {
    if m > 0 {
      Pow2Add(m - 1, n);
      MulAssoc(2, Pow2(m - 1), Pow2(n));
    }
  }

  lemma Pow2Byte(n: nat)
    requires n == 8
    ensures Pow2(n) == 0x100
  {}

  lemma Pow2Word(n: nat)
    requires n == 32
    ensures Pow2(n) == BASE
  {
    Pow2Byte(n - 24);
    Pow2Add(n - 24, n - 24);
    Pow2Add(n - 16, n - 16);
  }

  lemma {:induction false} Pow2Mono(m: nat, n: nat)
    requires m <= n
    ensures Pow2(m) <= Pow2(n)
    decreases n
  {
    if m < n { Pow2Mono(m, n - 1); }
  }

  /** Bitwise or of two naturals. */
  function Or(x: nat, y: nat): nat
    decreases x + y
  {
    if x == 0 && y == 0 then 0
    else (if x % 2 == 1 || y % 2 == 1 then 1 else 0) + 2 * Or(x / 2, y / 2)
  }

  lemma {:induction false} OrBound(x: nat, y: nat, n: nat)
    requires x < Pow2(n) && y < Pow2(n)
    ensures Or(x, y) < Pow2(n)
    decreases n
  {
    if n > 0 { OrBound(x / 2, y / 2, n - 1); }
  }

  // The 32-bit operators |, << and >>.

  function Or32(x: Limb, y: Limb): (r: Limb)
  {
    var n: nat := 32;
    Pow2Word(n);
    OrBound(x, y, n);
    Or(x, y)
  }

  function Shl32(x: Limb, n: nat): (r: Limb)
    decreases n
  {
    if n == 0 then x else Shl32((2 * x) % BASE, n - 1)
  }

  function Shr32(x: Limb, n: nat): (r: Limb)
    decreases n
  {
    if n == 0 then x else Shr32(x / 2, n - 1)
  }

  lemma {:induction false} Shl32IsProduct(x: Limb, n: nat)
    ensures Shl32(x, n) == (x * Pow2(n)) % BASE
    decreases n
  {
    if n > 0 {
      Shl32IsProduct((2 * x) % BASE, n - 1);
      DropMultiple(2 * x, Pow2(n - 1), BASE);
      MulAssoc(x, 2, Pow2(n - 1));
    }
  }

  lemma DropMultiple(x: int, p: int, m: int)
    requires m > 0
    ensures ((x % m) * p) % m == (x * p) % m
  {
    DivMod(x, m);
    Distribute((x / m) * m, x % m, p);
    assert (x / m) * m * p == (x / m) * p * m;
    var r := (x % m) * p;
    DivMod(r, m);
    Distribute((x / m) * p, r / m, m);
    DivUnique(x * p, m, (x / m) * p + r / m, r % m);
  }

  lemma {:induction false} Shr32IsQuotient(x: Limb, n: nat)
    ensures Shr32(x, n) == x / Pow2(n)
    decreases n
  {
    if n > 0 {
      Shr32IsQuotient(x / 2, n - 1);
      NestedQuotient(x, Pow2(n - 1));
    }
  }

  lemma NestedQuotient(x: int, p: int)
    requires p > 0
    ensures (x / 2) / p == x / (2 * p)
  {
    var q, r := (x / 2) / p, (x / 2) % p;
    DivMod(x / 2, p);
    assert q * (2 * p) == 2 * (q * p);
    DivUnique(x, 2 * p, q, 2 * r + x % 2);
  }

  lemma DivShrinks(x: nat, d: nat)
    requires d > 0
    ensures 0 <= x / d <= x
  {
    DivMod(x, d);
    if x / d < 0 { MulMono(x / d, -1, d); }
    if x / d > 0 { MulMono(1, d, x / d); }
  }

  /** Or adds when one operand lies below bit s and the other is a multiple of 2^s. */
  lemma {:induction false} OrIsSum(lo: nat, hi: nat, s: nat)
    requires lo < Pow2(s)
    ensures Or(lo, hi * Pow2(s)) == lo + hi * Pow2(s)
    ensures Or(hi * Pow2(s), lo) == lo + hi * Pow2(s)
    decreases s, hi
  {
    var y := hi * Pow2(s);
    if s > 0 {
      Halve(hi, Pow2(s - 1));
      OrIsSum(lo / 2, hi, s - 1);
    } else if hi > 0 {
      OrIsSum(0, hi / 2, 0);
    }
  }

  /** Or-ing in a bit that is clear adds it. */
  lemma {:induction false} OrSetsBit(x: nat, s: nat)
    requires (x / Pow2(s)) % 2 == 0
    ensures Or(x, Pow2(s)) == x + Pow2(s)
    decreases s
  {
    if s == 0 {
      OrNothing(x / 2);
    } else {
      NestedQuotient(x, Pow2(s - 1));
      OrSetsBit(x / 2, s - 1);
    }
  }

  lemma {:induction false} OrNothing(x: nat)
    ensures Or(x, 0) == x
  {
    if x > 0 { OrNothing(x / 2); }
  }

  lemma Halve(h: int, p: int)
    ensures (h * (2 * p)) / 2 == h * p && (h * (2 * p)) % 2 == 0
  {
    assert h * (2 * p) == 2 * (h * p);
  }

  // Multiplication and division steps the solver is given one at a time.

  lemma MulAssoc(a: int, b: int, c: int)
    ensures a * b * c == a * (b * c)
  {}

  lemma Distribute(a: int, b: int, c: int)
    ensures (a + b) * c == a * c + b * c
  {}

  lemma MulMono(a: int, b: int, c: nat)
    requires a <= b
    ensures a * c <= b * c
  {}

  lemma DivUnique(n: int, d: int, q: int, r: int)
    requires d > 0 && n == q * d + r && 0 <= r < d
    ensures n / d == q && n % d == r
  {
    var q', r' := n / d, n % d;
    assert (q - q') * d == r' - r by { Distribute(q, -q', d); }
    if q > q' { MulMono(1, q - q', d); }
    if q < q' { MulMono(q - q', -1, d); }
  }

  lemma DivMod(n: int, d: int)
    requires d > 0
    ensures n == (n / d) * d + n % d
  {}

  /** Removing a multiple of the divisor takes the same number off the quotient. */
  lemma DivAddMultiple(v: int, c: int, d: int)
    requires d > 0
    ensures (v + c * d) / d == v / d + c
  {
    DivMod(v, d);
    Distribute(v / d, c, d);
    DivUnique(v + c * d, d, v / d + c, v % d);
  }
}
