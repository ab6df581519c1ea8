/**
 The exponential difficulty rule as arithmetic on plain integers: what the target
 is, that it moves the right way with time and height, and where it is exact.
 */
module Asert {
  import opened Limbs
  import opened LimbSteps

  const MAX_OFFSET: int := 0x7FFF_FFFF_FFFF

  /** Division that truncates toward zero. */
  function Quot(a: int, b: int): (q: int)
    requires b > 0
  {
    if a >= 0 then a / b else -((-a) / b)
  }

  function ClampOffset(offset: int): (r: int)
    ensures -MAX_OFFSET <= r <= MAX_OFFSET
  {
    if offset > MAX_OFFSET then MAX_OFFSET else if offset < -MAX_OFFSET then -MAX_OFFSET else offset
  }

  /** Half-lives past the schedule, in units of 1/65536. */
  function Exponent(offset: int, halfLife: int): (e: int)
    requires halfLife > 0
  {
    Quot(ClampOffset(offset) * 0x1_0000, halfLife)
  }

  /** The cubic that approximates 2^(f/65536) - 1, scaled by 2^64, by its coefficients from the lowest. */
  const CUBIC: seq<nat> := [0x8000_0000_0000, 195766423245049, 971821376, 5127]

  /** The value of a polynomial by Horner's rule. */
  function Eval(coefficients: seq<nat>, x: nat): nat
  {
    if coefficients == [] then 0 else coefficients[0] + x * Eval(coefficients[1..], x)
  }

  function Poly(f: nat): (p: nat)
  {
    Eval(CUBIC, f)
  }

  lemma PolyIs(f: nat)
    ensures Poly(f) == Weigh(f, f * f, f * f * f)
  {
    var c := CUBIC;
    assert c[1..][1..] == c[2..] && c[2..][1..] == c[3..] && c[3..][1..] == [];
    assert Eval(c[3..], f) == 5127 + f * Eval([], f) == 5127;
    assert Eval(c[2..], f) == 971821376 + f * 5127;
    assert Eval(c[1..], f) == 195766423245049 + f * (971821376 + f * 5127);
    Expand(f, 195766423245049, 971821376, 5127);
  }

  lemma Expand(f: nat, a: nat, b: nat, c: nat)
    ensures f * (a + f * (b + f * c)) == a * f + b * (f * f) + c * (f * f * f)
  {}

  function Weigh(linear: nat, square: nat, cube: nat): (p: nat)
  {
    195766423245049 * linear + 971821376 * square + 5127 * cube + 0x8000_0000_0000
  }

  /** The polynomial of a 16-bit fraction never overflows 64 bits, and the factor stays in [65536, 131071]. */
  function Factor(f: nat): (r: nat)
    requires f < 0x1_0000
    ensures Poly(f) < 0x1_0000_0000_0000_0000
    ensures 0x1_0000 <= r <= 0x1_FFFF
    ensures f == 0 ==> r == 0x1_0000
  {
    PolyRange(f, 0xFFFF);
    0x1_0000 + Poly(f) / 0x1_0000_0000_0000
  }

  /** floor(n * 2^k), for k of either sign. */
  ghost function Scale(n: nat, k: int): (r: nat)
  {
    if k >= 0 then n * Pow2(k) else
      DivShrinks(n, Pow2(-k));
      n / Pow2(-k)
  }

  ghost function Clamp(v: nat, limit: nat): (r: nat)
  {
    if v == 0 then 1 else if v > limit then limit else v
  }

  /** The unclamped target at a given exponent. */
  ghost function Unclamped(ref: nat, e: int): (r: nat)
  {
    Scale(ref * Factor(e % 0x1_0000), e / 0x1_0000 - 16)
  }

  ghost predicate InRange(ref: nat, heightDiff: int, limit: nat, halfLife: int)
  {
    0 < ref <= limit < Weight(7) && heightDiff >= 0 && halfLife > 0
  }

  /** The next target. */
  ghost function Target(ref: nat, spacing: int, timeDiff: int, heightDiff: int, limit: nat, halfLife: int): (r: nat)
    ensures r <= limit && (limit > 0 ==> r > 0)
  {
    if !InRange(ref, heightDiff, limit, halfLife) then limit
    else Clamp(Unclamped(ref, Exponent(timeDiff - spacing * (heightDiff + 1), halfLife)), limit)
  }

  // ---------- The polynomial ----------

  lemma PolyRange(f: nat, g: nat)
    requires f <= g <= 0xFFFF
    ensures Poly(f) <= Poly(g) <= 18446563080438344768
  {
    hide Poly, Weigh;
    PolyIs(f);
    PolyIs(g);
    PowersMono(f, g);
    WeighMono(f, f * f, f * f * f, g, g * g, g * g * g);
    PowersTop(g);
    WeighMono(g, g * g, g * g * g, 0xFFFF, 0xFFFE_0001, 0xFFFD_0002_FFFF);
    WeighTop();
  }

  lemma PowersTop(g: nat)
    requires g <= 0xFFFF
    ensures g * g <= 0xFFFE_0001 && g * g * g <= 0xFFFD_0002_FFFF
  {
    MulMono(g, 0xFFFF, g);
    MulMono(g * g, 0xFFFE_0001, g);
  }

  lemma WeighTop()
    ensures Weigh(0xFFFF, 0xFFFE_0001, 0xFFFD_0002_FFFF) == 18446563080438344768
  {}

  lemma WeighMono(a: nat, b: nat, c: nat, a': nat, b': nat, c': nat)
    requires a <= a' && b <= b' && c <= c'
    ensures Weigh(a, b, c) <= Weigh(a', b', c')
  {}

  lemma PowersMono(f: nat, g: nat)
    requires f <= g
    ensures f * f <= g * g && f * f * f <= g * g * g
  {
    MulMono(f, g, f);
    MulMono(f, g, g);
    MulMono(f * f, g * g, f);
    MulMono(f, g, g * g);
  }

  // ---------- Monotonicity ----------

  lemma ScaleMono(n: nat, m: nat, k: int)
    requires n <= m
    ensures Scale(n, k) <= Scale(m, k)
  {
    if k >= 0 { MulMono(n, m, Pow2(k)); } else { QuotientMono(n, m, Pow2(-k)); }
  }

  lemma QuotientMono(a: int, b: int, d: int)
    requires d > 0 && a <= b
    ensures a / d <= b / d
  {
    DivMod(a, d);
    DivMod(b, d);
    if a / d > b / d { MulMono(b / d + 1, a / d, d); Distribute(b / d, 1, d); }
  }

  lemma ScaleDouble(n: nat, k: int)
    ensures Scale(2 * n, k) == Scale(n, k + 1)
  {
    if k >= 0 {
      MulAssoc(n, 2, Pow2(k));
    } else {
      var p := Pow2(-k - 1);
      DivMod(n, p);
      var q, r := n / p, n % p;
      assert q * (2 * p) == 2 * (q * p);
      DivUnique(2 * n, 2 * p, q, 2 * r);
      if k == -1 { DivUnique(n, p, n, 0); }
    }
  }

  /** One more 65536th of a half-life never lowers the target, the wrap of the fraction included. */
  lemma UnclampedStep(ref: nat, e: int)
    ensures Unclamped(ref, e) <= Unclamped(ref, e + 1)
  {
    var f, s := e % 0x1_0000, e / 0x1_0000 - 16;
    if f < 0xFFFF {
      var g := f + 1;
      assert (e + 1) % 0x1_0000 == g && (e + 1) / 0x1_0000 == e / 0x1_0000;
      PolyRange(f, g);
      ScaledUp(ref, Poly(f), Poly(g), s);
    } else {
      assert (e + 1) % 0x1_0000 == 0 && (e + 1) / 0x1_0000 == e / 0x1_0000 + 1;
      ScaledOver(ref, Factor(f), s);
    }
  }

  /** A larger polynomial never scales to less. */
  lemma ScaledUp(ref: nat, p: nat, q: nat, s: int)
    requires p <= q
    ensures Scale(ref * (0x1_0000 + p / 0x1_0000_0000_0000), s) <= Scale(ref * (0x1_0000 + q / 0x1_0000_0000_0000), s)
  {
    hide Scale;
    var a, b := 0x1_0000 + p / 0x1_0000_0000_0000, 0x1_0000 + q / 0x1_0000_0000_0000;
    MulMono(a, b, ref);
    ScaleMono(ref * a, ref * b, s);
  }

  /** No factor below two scales to more than factor one does a place higher. */
  lemma ScaledOver(ref: nat, factor: nat, s: int)
    requires factor <= 0x1_FFFF
    ensures Scale(ref * factor, s) <= Scale(ref * 0x1_0000, s + 1)
  {
    hide Scale;
    MulMono(factor, 0x2_0000, ref);
    ScaleMono(ref * factor, 2 * (ref * 0x1_0000), s);
    ScaleDouble(ref * 0x1_0000, s);
  }

  lemma {:induction false} UnclampedMono(ref: nat, e: int, e': int)
    requires e <= e'
    ensures Unclamped(ref, e) <= Unclamped(ref, e')
    decreases e' - e
  {
    if e < e' {
      UnclampedMono(ref, e, e' - 1);
      UnclampedStep(ref, e' - 1);
    }
  }

  lemma QuotMono(a: int, b: int, d: int)
    requires d > 0 && a <= b
    ensures Quot(a, d) <= Quot(b, d)
  {
    if a >= 0 {
      QuotientMono(a, b, d);
    } else if b < 0 {
      QuotientMono(-b, -a, d);
    } else {
      QuotientMono(0, b, d);
      QuotientMono(0, -a, d);
    }
  }

  lemma ExponentMono(o: int, o': int, halfLife: int)
    requires halfLife > 0 && o <= o'
    ensures Exponent(o, halfLife) <= Exponent(o', halfLife)
  {
    QuotMono(ClampOffset(o) * 0x1_0000, ClampOffset(o') * 0x1_0000, halfLife);
  }

  lemma OffsetMono(ref: nat, limit: nat, o: int, o': int, halfLife: int)
    requires halfLife > 0 && o <= o' && limit > 0
    ensures Clamp(Unclamped(ref, Exponent(o, halfLife)), limit) <= Clamp(Unclamped(ref, Exponent(o', halfLife)), limit)
  {
    ExponentMono(o, o', halfLife);
    UnclampedMono(ref, Exponent(o, halfLife), Exponent(o', halfLife));
  }

  /** A later block is never given a harder target. */
  lemma TargetRisesWithTime(ref: nat, spacing: int, t: int, t': int, heightDiff: int, limit: nat, halfLife: int)
    requires t <= t'
    ensures Target(ref, spacing, t, heightDiff, limit, halfLife)
      <= Target(ref, spacing, t', heightDiff, limit, halfLife)
  {
    if InRange(ref, heightDiff, limit, halfLife) {
      var due := spacing * (heightDiff + 1);
      OffsetMono(ref, limit, t - due, t' - due, halfLife);
    }
  }

  /** More blocks in the same time are never given an easier target. */
  lemma TargetFallsWithHeight(ref: nat, spacing: nat, t: int, h: int, h': int, limit: nat, halfLife: int)
    requires h <= h'
    ensures Target(ref, spacing, t, h', limit, halfLife) <= Target(ref, spacing, t, h, limit, halfLife)
  {
    if InRange(ref, h', limit, halfLife) && h >= 0 {
      MulMono(h + 1, h' + 1, spacing);
      OffsetMono(ref, limit, t - spacing * (h' + 1), t - spacing * (h + 1), halfLife);
    }
  }

  // ---------- Exact points ----------

  /** At exactly k half-lives the target is ref * 2^k, rounded down and clamped; at zero it is ref. */
  lemma TargetAtHalfLives(ref: nat, spacing: int, t: int, h: int, limit: nat, halfLife: int, k: int)
    requires InRange(ref, h, limit, halfLife)
    requires t - spacing * (h + 1) == k * halfLife && -MAX_OFFSET <= k * halfLife <= MAX_OFFSET
    ensures Target(ref, spacing, t, h, limit, halfLife) == Clamp(Scale(ref, k), limit)
    ensures k == 0 ==> Target(ref, spacing, t, h, limit, halfLife) == ref
  {
    WholeQuot(k, halfLife);
    assert Exponent(t - spacing * (h + 1), halfLife) == k * 0x1_0000;
    UnclampedAtWhole(ref, k);
    if k == 0 { assert Scale(ref, 0) == ref * Pow2(0); }
  }

  lemma UnclampedAtWhole(ref: nat, k: int)
    ensures Unclamped(ref, k * 0x1_0000) == Scale(ref, k)
  {
    WholeParts(k);
    var j := 16;
    Pow2Byte(j - 8);
    Pow2Add(j - 8, j - 8);
    ScaleShift(ref, k, j);
  }

  lemma WholeParts(k: int)
    ensures (k * 0x1_0000) % 0x1_0000 == 0 && (k * 0x1_0000) / 0x1_0000 == k
  {}

  lemma WholeQuot(k: int, d: int)
    requires d > 0
    ensures Quot(k * d * 0x1_0000, d) == k * 0x1_0000
  {
    var n := k * d * 0x1_0000;
    assert n == (k * 0x1_0000) * d;
    if n >= 0 { DivUnique(n, d, k * 0x1_0000, 0); } else { DivUnique(-n, d, -(k * 0x1_0000), 0); }
  }

  /** Scaling up before scaling down again loses nothing. */
  lemma {:induction false} ScaleShift(n: nat, k: int, j: nat)
    ensures Scale(n * Pow2(j), k - j) == Scale(n, k)
  {
    if j > 0 {
      MulDouble(n, Pow2(j - 1));
      ScaleDouble(n * Pow2(j - 1), k - j);
      ScaleShift(n, k, j - 1);
    }
  }

  lemma MulDouble(n: int, p: int)
    ensures n * (2 * p) == 2 * (n * p)
  {}
}
