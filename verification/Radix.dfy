/**
 Positional numbers, most significant digit first, and the in-place step shared by
 both Base58 directions: multiply every digit by a factor and add a digit.
 */
module Radix {
  import opened Limbs

  function Power(b: nat, n: nat): (p: nat)
    requires b > 0
    ensures p >= 1
    decreases n
  {
    if n == 0 then 1 else
      MulMono(1, b, Power(b, n - 1));
      b * Power(b, n - 1)
  }

  /** The number a digit string stands for. */
  ghost function Num(s: seq<nat>, b: nat): (v: nat)
  {
    if s == [] then 0 else Num(s[..|s| - 1], b) * b + s[|s| - 1]
  }

  ghost predicate DigitsOf(s: seq<nat>, b: nat)
  {
    forall i :: 0 <= i < |s| ==> s[i] < b
  }

  /** The canonical digits of v: none for zero, otherwise no leading zero. */
  ghost function ToDigits(v: nat, b: nat): (s: seq<nat>)
    requires b > 1
  {
    if v == 0 then [] else
      QuotientSmaller(v, b);
      ToDigits(v / b, b) + [v % b]
  }

  lemma QuotientSmaller(v: nat, b: nat)
    requires b > 1 && v > 0
    ensures 0 <= v / b < v && 0 <= v % b < b
  {
    DivMod(v, b);
    DivShrinks(v, b);
    if v / b == v { MulMono(2, b, v); }
  }

  lemma {:induction false} NumToDigits(v: nat, b: nat)
    requires b > 1
    ensures Num(ToDigits(v, b), b) == v && DigitsOf(ToDigits(v, b), b)
    ensures v > 0 ==> |ToDigits(v, b)| > 0 && ToDigits(v, b)[0] != 0
  {
    if v > 0 {
      QuotientSmaller(v, b);
      NumToDigits(v / b, b);
      DivMod(v, b);
      var s := ToDigits(v, b);
      assert s[..|s| - 1] == ToDigits(v / b, b);
      if v / b == 0 { assert s[0] == v % b; }
    }
  }

  lemma {:induction false} NumBound(s: seq<nat>, b: nat)
    requires b > 1 && DigitsOf(s, b)
    ensures Num(s, b) < Power(b, |s|)
    ensures |s| > 0 && s[0] > 0 ==> Num(s, b) >= Power(b, |s| - 1)
  {
    if s != [] {
      var n := |s| - 1;
      var t := s[..n];
      NumBound(t, b);
      BoundStep(Num(t, b), s[n], Power(b, n), b);
      if n > 0 && s[0] > 0 { LowerStep(Num(t, b), s[n], Power(b, n - 1), b); }
    }
  }

  lemma BoundStep(v: int, d: int, p: int, b: nat)
    requires v < p && d < b
    ensures v * b + d < b * p
  {
    MulMono(v + 1, p, b);
    Distribute(v, 1, b);
  }

  lemma LowerStep(v: int, d: nat, p: int, b: nat)
    requires v >= p
    ensures v * b + d >= b * p
  {
    MulMono(p, v, b);
  }

  /** Canonical digits are unique. */
  lemma {:induction false} DigitsUnique(s: seq<nat>, b: nat)
    requires b > 1 && DigitsOf(s, b) && (s != [] ==> s[0] != 0)
    ensures ToDigits(Num(s, b), b) == s
  {
    if s != [] {
      var n := |s| - 1;
      DigitsUnique(s[..n], b);
      DivUnique(Num(s, b), b, Num(s[..n], b), s[n]);
      if n > 0 {
        NumBound(s[..n], b);
        MulMono(1, Num(s[..n], b), b);
      }
      assert Num(s, b) > 0;
      assert s == s[..n] + [s[n]];
    }
  }

  lemma {:induction false} NumOfZeros(s: seq<nat>, b: nat)
    requires forall i :: 0 <= i < |s| ==> s[i] == 0
    ensures Num(s, b) == 0
  {
    if s != [] { NumOfZeros(s[..|s| - 1], b); }
  }

  lemma {:induction false} NumConcat(s: seq<nat>, t: seq<nat>, b: nat)
    requires b > 0
    ensures Num(s + t, b) == Num(s, b) * Power(b, |t|) + Num(t, b)
  {
    if t == [] {
      assert s + t == s;
    } else {
      var n := |t| - 1;
      NumConcat(s, t[..n], b);
      assert (s + t)[..|s + t| - 1] == s + t[..n];
      ConcatStep(Num(s, b), Power(b, n), Num(t[..n], b), b, t[n]);
    }
  }

  lemma ConcatStep(v: int, p: int, w: int, b: int, d: int)
    ensures (v * p + w) * b + d == v * (b * p) + (w * b + d)
  {
    Distribute(v * p, w, b);
    assert v * p * b == v * (b * p);
  }

  /** Leading zeros add nothing. */
  lemma LeadingZeros(s: seq<nat>, k: nat, b: nat)
    requires b > 0 && k <= |s| && forall i :: 0 <= i < k ==> s[i] == 0
    ensures Num(s, b) == Num(s[k..], b)
  {
    NumOfZeros(s[..k], b);
    NumConcat(s[..k], s[k..], b);
    assert s == s[..k] + s[k..];
  }

  // ---------- Multiply and add, digit by digit from the right ----------

  /** The carry into the digit n places from the right. */
  ghost function Carry(s: seq<nat>, f: nat, c: nat, b: nat, n: nat): (r: nat)
    requires b > 0 && n <= |s|
  {
    if n == 0 then c else
      DivShrinks(Carry(s, f, c, b, n - 1) + f * s[|s| - n], b);
      (Carry(s, f, c, b, n - 1) + f * s[|s| - n]) / b
  }

  /** The digit left at index i. */
  ghost function NewDigit(s: seq<nat>, f: nat, c: nat, b: nat, i: nat): (r: nat)
    requires b > 0 && i < |s|
  {
    (Carry(s, f, c, b, |s| - 1 - i) + f * s[i]) % b
  }

  ghost predicate Stepped(s: seq<nat>, f: nat, c: nat, b: nat, t: seq<nat>)
    requires b > 0
  {
    |t| == |s| && forall i :: 0 <= i < |s| ==> t[i] == NewDigit(s, f, c, b, i)
  }

  /** The last n digits. */
  ghost function Suffix(s: seq<nat>, b: nat, n: nat): (v: nat)
    requires b > 0 && n <= |s|
  {
    if n == 0 then 0 else Suffix(s, b, n - 1) + s[|s| - n] * Power(b, n - 1)
  }

  lemma {:induction false} SuffixIsNum(s: seq<nat>, b: nat, n: nat)
    requires b > 0 && n <= |s|
    ensures Suffix(s, b, n) == Num(s[|s| - n..], b)
  {
    if n > 0 {
      SuffixIsNum(s, b, n - 1);
      var d := [s[|s| - n]];
      assert s[|s| - n..] == d + s[|s| - n + 1..];
      NumConcat(d, s[|s| - n + 1..], b);
      assert Num(d, b) == Num([], b) * b + d[0];
    }
  }

  lemma {:induction false} SteppedSuffix(s: seq<nat>, f: nat, c: nat, b: nat, t: seq<nat>, n: nat)
    requires b > 0 && n <= |s| && Stepped(s, f, c, b, t)
    ensures Suffix(t, b, n) + Carry(s, f, c, b, n) * Power(b, n) == f * Suffix(s, b, n) + c
  {
    if n > 0 {
      SteppedSuffix(s, f, c, b, t, n - 1);
      var x, k := s[|s| - n], Carry(s, f, c, b, n - 1);
      DivMod(k + f * x, b);
      assert t[|s| - n] == (k + f * x) % b;
      SuffixStep(Suffix(t, b, n - 1), t[|s| - n], Carry(s, f, c, b, n), b, Power(b, n - 1),
                 f, Suffix(s, b, n - 1), x, k, c);
    }
  }

  lemma SuffixStep(t: int, d: int, q: int, b: int, p: int, f: int, s: int, x: int, k: int, c: int)
    requires t + k * p == f * s + c && k + f * x == q * b + d
    ensures (t + d * p) + q * (b * p) == f * (s + x * p) + c
  {
    assert (q * b + d) * p == (k + f * x) * p;
    Distribute(q * b, d, p);
    Distribute(k, f * x, p);
    MulAssoc(q, b, p);
    MulAssoc(f, x, p);
  }

  /** If the result fits, the digits left behind stand for f times the old number plus c, and no carry is lost. */
  lemma SteppedNum(s: seq<nat>, f: nat, c: nat, b: nat, t: seq<nat>)
    requires b > 1 && Stepped(s, f, c, b, t)
    ensures Carry(s, f, c, b, |s|) == 0 ==> Num(t, b) == f * Num(s, b) + c
    ensures f * Num(s, b) + c < Power(b, |s|) <==> Carry(s, f, c, b, |s|) == 0
  {
    var q, p := Carry(s, f, c, b, |s|), Power(b, |s|);
    SteppedSuffix(s, f, c, b, t, |s|);
    SuffixIsNum(s, b, |s|);
    SuffixIsNum(t, b, |s|);
    assert s[0..] == s && t[0..] == t;
    assert DigitsOf(t, b) by { DigitsBelow(s, f, c, b, t); }
    NumBound(t, b);
    if q > 0 { MulMono(1, q, p); }
  }

  lemma DigitsBelow(s: seq<nat>, f: nat, c: nat, b: nat, t: seq<nat>)
    requires b > 0 && Stepped(s, f, c, b, t)
    ensures DigitsOf(t, b)
  {
    forall i | 0 <= i < |t|
      ensures t[i] < b
    {
      assert t[i] == NewDigit(s, f, c, b, i);
    }
  }

  /** Carries stay below f, so they never outgrow a machine word. */
  lemma {:induction false} CarryBound(s: seq<nat>, f: nat, c: nat, b: nat, n: nat)
    requires b > 0 && n <= |s| && c < f && DigitsOf(s, b)
    ensures Carry(s, f, c, b, n) < f
  {
    if n > 0 {
      CarryBound(s, f, c, b, n - 1);
      var x, k := s[|s| - n], Carry(s, f, c, b, n - 1);
      assert k + f * x < f * b by { MulMono(x + 1, b, f); Distribute(x, 1, f); }
      DivMod(k + f * x, b);
      if (k + f * x) / b >= f { MulMono(f, (k + f * x) / b, b); }
    }
  }

  lemma CarryStart(s: seq<nat>, f: nat, c: nat, b: nat)
    requires b > 0
    ensures Carry(s, f, c, b, 0) == c
  {}

  /** One turn of the loop: the digit it leaves at index i and the carry it hands on. */
  lemma CarryStep(s: seq<nat>, f: nat, c: nat, b: nat, i: nat)
    requires b > 0 && i < |s| && c < f && DigitsOf(s, b)
    ensures var k := Carry(s, f, c, b, |s| - 1 - i) + f * s[i];
            NewDigit(s, f, c, b, i) == k % b && Carry(s, f, c, b, |s| - i) == k / b < f
  {
    CarryBound(s, f, c, b, |s| - i);
  }

  /** Where the carry has died out above only zeros, the remaining digits stay zero. */
  lemma NothingCarried(s: seq<nat>, f: nat, c: nat, b: nat, n: nat)
    requires b > 0 && 0 < n <= |s| && Carry(s, f, c, b, n - 1) == 0 && s[|s| - n] == 0
    ensures Carry(s, f, c, b, n) == 0 && NewDigit(s, f, c, b, |s| - n) == 0
  {
    assert f * s[|s| - n] == 0;
    DivUnique(0, b, 0, 0);
  }

  lemma {:induction false} CarryStops(s: seq<nat>, f: nat, c: nat, b: nat, m: nat, n: nat)
    requires b > 0 && m <= n <= |s| && Carry(s, f, c, b, m) == 0
    requires forall i :: 0 <= i < |s| - m ==> s[i] == 0
    ensures Carry(s, f, c, b, n) == 0
    ensures forall i :: |s| - n <= i < |s| - m ==> NewDigit(s, f, c, b, i) == 0
  {
    if m < n {
      CarryStops(s, f, c, b, m, n - 1);
      NothingCarried(s, f, c, b, n);
    }
  }
}
