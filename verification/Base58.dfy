/** Base58 in both directions, on the digit and word buffers the C code works in. */
module Base58 {
  import opened Limbs
  import opened Radix

  // ---------- The alphabet ----------

  function CharOf(d: nat): (c: char)
    requires d < 58
  {
    if d < 9 then ('1' as int + d) as char
    else if d < 17 then ('A' as int + (d - 9)) as char
    else if d < 22 then ('J' as int + (d - 17)) as char
    else if d < 33 then ('P' as int + (d - 22)) as char
    else if d < 44 then ('a' as int + (d - 33)) as char
    else ('m' as int + (d - 44)) as char
  }

  /** The value of a digit character, -1 for anything else. */
  function DigitOf(c: char): (d: int)
    ensures -1 <= d < 58
  {
    if '1' <= c <= '9' then c as int - '1' as int
    else if 'A' <= c <= 'H' then c as int - 'A' as int + 9
    else if 'J' <= c <= 'N' then c as int - 'J' as int + 17
    else if 'P' <= c <= 'Z' then c as int - 'P' as int + 22
    else if 'a' <= c <= 'k' then c as int - 'a' as int + 33
    else if 'm' <= c <= 'z' then c as int - 'm' as int + 44
    else -1
  }

  lemma AlphabetInverse(d: nat, c: char)
    ensures d < 58 ==> DigitOf(CharOf(d)) == d
    ensures DigitOf(c) >= 0 ==> CharOf(DigitOf(c)) == c
  {}

  /** The digits are the letters and figures but for 0, O, I and l, in the order of their codes. */
  lemma Alphabet(c: char, d: nat, e: nat)
    ensures DigitOf(c) >= 0 <==> ('0' <= c <= '9' || 'A' <= c <= 'Z' || 'a' <= c <= 'z') && c !in "0OIl"
    ensures d < e < 58 ==> CharOf(d) < CharOf(e)
  {}

  // ---------- What the two directions mean ----------

  ghost function Lead(s: seq<nat>): (n: nat)
    ensures n <= |s|
  {
    if s != [] && s[0] == 0 then 1 + Lead(s[1..]) else 0
  }

  ghost function LeadOnes(s: string): (n: nat)
    ensures n <= |s|
  {
    if s != [] && s[0] == '1' then 1 + LeadOnes(s[1..]) else 0
  }

  ghost function Chars(ds: seq<nat>): string
    requires DigitsOf(ds, 58)
  {
    seq(|ds|, i requires 0 <= i < |ds| => CharOf(ds[i]))
  }

  ghost predicate IsText(s: string)
  {
    forall i :: 0 <= i < |s| ==> DigitOf(s[i]) >= 0
  }

  ghost function Digits(s: string): (ds: seq<nat>)
    requires IsText(s)
  {
    seq(|s|, i requires 0 <= i < |s| => DigitOf(s[i]))
  }

  ghost function Repeat<T>(x: T, n: nat): seq<T> { seq(n, _ => x) }

  /** One '1' per leading zero byte, then the number in canonical base 58 digits. */
  ghost function Encode(data: seq<nat>): string
  {
    NumToDigits(Num(data, 256), 58);
    Repeat('1', Lead(data)) + Chars(ToDigits(Num(data, 256), 58))
  }

  /** The number a text stands for. */
  ghost function TextNum(s: string): nat
    requires IsText(s)
  {
    Num(Digits(s), 58)
  }

  /** The bytes a text stands for: a zero byte per leading '1', then the number in canonical bytes. */
  ghost function Decode(s: string): (data: seq<nat>)
    requires IsText(s)
  {
    Repeat(0, LeadOnes(s)) + ToDigits(TextNum(s), 256)
  }

  // ---------- The two directions undo each other ----------

  lemma {:induction false} LeadSplit(s: seq<nat>)
    ensures s[..Lead(s)] == Repeat(0, Lead(s))
    ensures Lead(s) < |s| ==> s[Lead(s)] != 0
  {
    if s != [] && s[0] == 0 {
      LeadSplit(s[1..]);
      assert s[..Lead(s)] == [0] + s[1..][..Lead(s[1..])];
    }
  }

  lemma {:induction false} LeadOf(n: nat, t: seq<nat>)
    requires t != [] ==> t[0] != 0
    ensures Lead(Repeat(0, n) + t) == n
  {
    if n > 0 {
      LeadOf(n - 1, t);
      assert (Repeat(0, n) + t)[1..] == Repeat(0, n - 1) + t;
    } else {
      assert Repeat(0, n) + t == t;
    }
  }

  lemma {:induction false} LeadOnesSplit(s: string)
    ensures s[..LeadOnes(s)] == Repeat('1', LeadOnes(s))
    ensures LeadOnes(s) < |s| ==> s[LeadOnes(s)] != '1'
  {
    if s != [] && s[0] == '1' {
      LeadOnesSplit(s[1..]);
      assert s[..LeadOnes(s)] == ['1'] + s[1..][..LeadOnes(s[1..])];
    }
  }

  lemma {:induction false} LeadOnesOf(n: nat, t: string)
    requires t != [] ==> t[0] != '1'
    ensures LeadOnes(Repeat('1', n) + t) == n
  {
    if n > 0 {
      LeadOnesOf(n - 1, t);
      assert (Repeat('1', n) + t)[1..] == Repeat('1', n - 1) + t;
    } else {
      assert Repeat('1', n) + t == t;
    }
  }

  /** Bytes are their leading zeros and the canonical bytes of their number. */
  lemma BytesCanonical(data: seq<nat>)
    requires DigitsOf(data, 256)
    ensures data == Repeat(0, Lead(data)) + ToDigits(Num(data, 256), 256)
  {
    hide ToDigits, Num, Lead;
    var z := Lead(data);
    LeadSplit(data);
    assert forall i :: 0 <= i < z ==> data[i] == data[..z][i];
    LeadingZeros(data, z, 256);
    DigitsUnique(data[z..], 256);
    assert data == data[..z] + data[z..];
  }

  lemma DigitsOfParts(n: nat, ds: seq<nat>)
    requires DigitsOf(ds, 58)
    ensures IsText(Repeat('1', n) + Chars(ds))
    ensures Digits(Repeat('1', n) + Chars(ds)) == Repeat(0, n) + ds
  {
    forall i | 0 <= i < |ds|
      ensures DigitOf(CharOf(ds[i])) == ds[i]
    {
      AlphabetInverse(ds[i], 'x');
    }
  }

  /** Decoding an encoding gives the bytes back, leading zeros included. */
  lemma DecodeEncode(data: seq<nat>)
    requires DigitsOf(data, 256)
    ensures IsText(Encode(data)) && Decode(Encode(data)) == data
    ensures LeadOnes(Encode(data)) == Lead(data) && TextNum(Encode(data)) == Num(data, 256)
  {
    var v, z := Num(data, 256), Lead(data);
    var ds := ToDigits(v, 58);
    NumToDigits(v, 58);
    DigitsOfParts(z, ds);
    LeadingZeros(Repeat(0, z) + ds, z, 58);
    assert (Repeat(0, z) + ds)[z..] == ds;
    if ds != [] { AlphabetInverse(ds[0], '1'); }
    LeadOnesOf(z, Chars(ds));
    BytesCanonical(data);
  }

  /** Encoding a decoding gives the text back, so no two texts decode alike. */
  lemma EncodeDecode(s: string)
    requires IsText(s)
    ensures DigitsOf(Decode(s), 256) && Encode(Decode(s)) == s
  {
    hide Num, ToDigits, Lead, LeadOnes, Digits, Chars, Repeat, DigitsOf;
    var n, v := LeadOnes(s), TextNum(s);
    DecodedNum(n, v);
    TextDigits(s);
    TextOfDigits(s, n);
  }

  /** The number and the leading zeros of a decoding are those it was made of. */
  lemma DecodedNum(n: nat, v: nat)
    ensures var data := Repeat(0, n) + ToDigits(v, 256); DigitsOf(data, 256) && Num(data, 256) == v && Lead(data) == n
  {
    hide Num, Lead;
    var data := Repeat(0, n) + ToDigits(v, 256);
    NumToDigits(v, 256);
    LeadOf(n, ToDigits(v, 256));
    assert data[n..] == ToDigits(v, 256) && forall k :: 0 <= k < n ==> data[k] == 0;
    LeadingZeros(data, n, 256);
  }

  /** Behind its leading ones a text holds the digits of its number. */
  lemma TextDigits(s: string)
    requires IsText(s)
    ensures var n := LeadOnes(s);
            n <= |Digits(s)| == |s| && s[..n] == Repeat('1', n) && Digits(s)[n..] == ToDigits(TextNum(s), 58)
  {
    hide Num, ToDigits, LeadOnes;
    var n, ds := LeadOnes(s), Digits(s);
    LeadOnesSplit(s);
    LeadingZeros(ds, n, 58);
    if n < |s| { AlphabetInverse(0, s[n]); }
    DigitsUnique(ds[n..], 58);
  }

  lemma TextOfDigits(s: string, n: nat)
    requires IsText(s) && n <= |s| && s[..n] == Repeat('1', n)
    ensures DigitsOf(Digits(s)[n..], 58) && s == Repeat('1', n) + Chars(Digits(s)[n..])
  {
    forall i | n <= i < |s|
      ensures CharOf(DigitOf(s[i])) == s[i]
    {
      AlphabetInverse(0, s[i]);
    }
    assert s == s[..n] + s[n..];
    assert Chars(Digits(s)[n..]) == s[n..];
  }

  // ---------- The digit buffer is always long enough ----------

  lemma {:induction false} PowerAdd(b: nat, m: nat, n: nat)
    requires b > 0
    ensures Power(b, m + n) == Power(b, m) * Power(b, n)
  {
    if m > 0 {
      PowerAdd(b, m - 1, n);
      MulAssoc(b, Power(b, m - 1), Power(b, n));
    }
  }

  lemma {:induction false} PowerMul(b: nat, m: nat, n: nat)
    requires b > 0
    ensures Power(b, m * n) == Power(Power(b, m), n)
    decreases n
  {
    if n > 0 {
      PowerMul(b, m, n - 1);
      assert m * n == m + m * (n - 1);
      PowerAdd(b, m, m * (n - 1));
    } else {
      assert m * n == 0;
    }
  }

  lemma PowerMonoExp(b: nat, m: nat, n: nat)
    requires b > 0 && m <= n
    ensures Power(b, m) <= Power(b, n)
  {
    PowerAdd(b, n - m, m);
    MulMono(1, Power(b, n - m), Power(b, m));
  }

  lemma {:induction false} PowerMonoBase(a: nat, b: nat, n: nat)
    requires 0 < a <= b
    ensures Power(a, n) <= Power(b, n)
    ensures a < b && n > 0 ==> Power(a, n) < Power(b, n)
  {
    if n > 0 {
      PowerMonoBase(a, b, n - 1);
      MulMono(Power(a, n - 1), Power(b, n - 1), a);
      MulMono(a, b, Power(b, n - 1));
      if a < b { MulMono(a + 1, b, Power(b, n - 1)); Distribute(a, 1, Power(b, n - 1)); }
    }
  }

  /** 58^11 exceeds 256^8, and 138/100 exceeds 11/8: no logarithm is needed. */
  lemma BufferSuffices(m: nat)
    ensures Power(256, m) <= Power(58, m * 138 / 100 + 1)
  {
    var k := m * 138 / 100 + 1;
    RatioHolds(11, 8);
    PowerMul(58, 11, m);
    PowerMul(256, 8, m);
    PowerMonoBase(Power(256, 8), Power(58, 11), m);
    PowerMonoExp(58, 11 * m, 8 * k);
    CompareEighth(m, k);
  }

  lemma CompareEighth(m: nat, k: nat)
    requires Power(256, 8 * m) <= Power(58, 8 * k)
    ensures Power(256, m) <= Power(58, k)
  {
    PowerMul(256, m, 8);
    PowerMul(58, k, 8);
    if Power(58, k) < Power(256, m) {
      PowerMonoBase(Power(58, k), Power(256, m), 8);
    }
  }

  lemma RatioHolds(m: nat, n: nat)
    requires m == 11 && n == 8
    ensures Power(256, n) <= Power(58, m)
  {
    assert Power(256, 4) == 0x1_0000_0000;
    PowerAdd(256, 4, 4);
    assert Power(58, 5) == 656356768 && Power(58, 6) == 38068692544;
    PowerAdd(58, 5, 6);
  }

  // ---------- Encoding ----------

  /**
   Multiplies the digits by 256 and adds a byte, skipping the zero digits up to `high` unless a carry reaches
   them.
   */
  method AddByte(buf: array<Byte>, high: nat, b: Byte) returns (j: nat)
    requires high < buf.Length && DigitsOf(buf[..], 58)
    requires forall k :: 0 <= k <= high ==> buf[k] == 0
    modifies buf
    ensures Stepped(old(buf[..]), 256, b, 58, buf[..])
    ensures j < buf.Length && (j == 0 || forall k :: 0 <= k <= j ==> buf[k] == 0)
  {
    hide Carry, NewDigit;
    ghost var s: seq<nat> := buf[..];
    var carry: nat := b;
    CarryStart(s, 256, b, 58);
    j := buf.Length - 1;
    while j > high || carry != 0
      invariant j < buf.Length && carry < 256
      invariant carry == Carry(s, 256, b, 58, |s| - 1 - j)
      invariant forall k :: 0 <= k <= j ==> buf[k] == s[k]
      invariant forall k :: j < k < buf.Length ==> buf[k] == NewDigit(s, 256, b, 58, k)
      decreases j
    {
      CarryStep(s, 256, b, 58, j);
      var digit: nat := buf[j];
      carry := carry + 256 * digit;
      buf[j] := carry % 58;
      carry := carry / 58;
      if j == 0 { return; }
      j := j - 1;
    }
    CarryStops(s, 256, b, 58, |s| - 1 - j, |s|);
  }

  method B58Enc(data: seq<Byte>, capacity: nat) returns (ok: bool, text: string, size: nat)
    ensures size == |Encode(data)| + 1
    ensures ok <==> capacity > |Encode(data)|
    ensures ok ==> text == Encode(data)
  {
    hide Num, ToDigits, Lead, DigitsOf;
    var zcount := ZerosAhead(data);
    LeadIs(data, zcount);
    var buf := ConvertBytes(data, zcount);
    var j := ZerosAhead(buf[..]);
    TailDigits(buf[..], j, Num(data, 256));
    size := zcount + buf.Length - j + 1;
    if capacity <= zcount + buf.Length - j {
      return false, "", size;
    }
    text := WriteText(zcount, buf[j..]);
    ok := true;
  }

  method ZerosAhead(s: seq<Byte>) returns (z: nat)
    ensures z <= |s| && (z < |s| ==> s[z] != 0) && forall k :: 0 <= k < z ==> s[k] == 0
  {
    z := 0;
    while z < |s| && s[z] == 0
      invariant z <= |s| && forall k :: 0 <= k < z ==> s[k] == 0
    {
      z := z + 1;
    }
  }

  method WriteText(zcount: nat, digits: seq<Byte>) returns (text: string)
    requires DigitsOf(digits, 58)
    ensures text == Repeat('1', zcount) + Chars(digits)
  {
    text := seq(zcount, _ => '1');
    for i := 0 to |digits|
      invariant text == Repeat('1', zcount) + Chars(digits[..i])
    {
      text := text + [CharOf(digits[i])];
    }
    assert digits[..|digits|] == digits;
  }

  /** What follows the zeros of a digit string are the digits of its number. */
  lemma TailDigits(s: seq<nat>, j: nat, v: nat)
    requires DigitsOf(s, 58) && Num(s, 58) == v && j <= |s| && (j < |s| ==> s[j] != 0)
    requires forall k :: 0 <= k < j ==> s[k] == 0
    ensures s[j..] == ToDigits(v, 58) && DigitsOf(s[j..], 58)
  {
    hide Num, ToDigits;
    LeadingZeros(s, j, 58);
    DigitsUnique(s[j..], 58);
  }

  /** The base 58 digits of the bytes after the leading zeros. */
  method ConvertBytes(data: seq<Byte>, zcount: nat) returns (buf: array<Byte>)
    requires zcount <= |data| && forall k :: 0 <= k < zcount ==> data[k] == 0
    ensures fresh(buf) && DigitsOf(buf[..], 58) && Num(buf[..], 58) == Num(data, 256)
  {
    hide Num, Stepped;
    var size := (|data| - zcount) * 138 / 100 + 1;
    buf := new Byte[size](i => 0);
    var i, high: nat := zcount, size - 1;
    NumOfZeros(buf[..], 58);
    NumOfZeros(data[..zcount], 256);
    while i < |data|
      invariant zcount <= i <= |data| && high < buf.Length == size
      invariant DigitsOf(buf[..], 58) && Num(buf[..], 58) == Num(data[..i], 256)
      invariant i < |data| ==> forall k :: 0 <= k <= high ==> buf[k] == 0
    {
      ghost var s: seq<nat> := buf[..];
      high := AddByte(buf, high, data[i]);
      DigitsBelow(s, 256, data[i], 58, buf[..]);
      NextByte(data, zcount, i, s, buf[..]);
      i := i + 1;
    }
    assert data[..|data|] == data;
  }

  lemma {:induction false} LeadIs(data: seq<nat>, z: nat)
    requires z <= |data| && (z < |data| ==> data[z] != 0)
    requires forall k :: 0 <= k < z ==> data[k] == 0
    ensures Lead(data) == z
  {
    if z > 0 { LeadIs(data[1..], z - 1); }
  }

  /** The buffer holds each prefix, and its first digit is still zero before the last byte. */
  lemma NextByte(data: seq<Byte>, z: nat, i: nat, s: seq<nat>, t: seq<nat>)
    requires z <= i < |data| && forall k :: 0 <= k < z ==> data[k] == 0
    requires |s| == (|data| - z) * 138 / 100 + 1 && Num(s, 58) == Num(data[..i], 256)
    requires Stepped(s, 256, data[i], 58, t)
    ensures Num(t, 58) == Num(data[..i + 1], 256)
    ensures i + 1 < |data| ==> t[0] == 0
  {
    assert data[..i + 1][..i] == data[..i];
    PrefixBound(data, z, i + 1);
    SteppedNum(s, 256, data[i], 58, t);
    if i + 1 < |data| {
      PrefixBoundEarly(data, z, i + 1);
      DigitsBelow(s, 256, data[i], 58, t);
      NumBound(t, 58);
    }
  }

  lemma PrefixBound(data: seq<Byte>, z: nat, i: nat)
    requires z <= i <= |data| && forall k :: 0 <= k < z ==> data[k] == 0
    ensures Num(data[..i], 256) < Power(58, (|data| - z) * 138 / 100 + 1)
  {
    LeadingZeros(data[..i], z, 256);
    NumBound(data[..i][z..], 256);
    PowerMonoExp(256, i - z, |data| - z);
    BufferSuffices(|data| - z);
  }

  lemma PrefixBoundEarly(data: seq<Byte>, z: nat, i: nat)
    requires z <= i < |data| && forall k :: 0 <= k < z ==> data[k] == 0
    ensures Num(data[..i], 256) < Power(58, (|data| - z) * 138 / 100)
  {
    LeadingZeros(data[..i], z, 256);
    NumBound(data[..i][z..], 256);
    PowerMonoExp(256, i - z, |data| - z - 1);
    BufferSuffices(|data| - z - 1);
    PowerMonoExp(58, (|data| - z - 1) * 138 / 100 + 1, (|data| - z) * 138 / 100);
  }

  // ---------- Decoding ----------

  /** Multiplies the words by 58 and adds a digit, returning what does not fit. */
  method AddDigit(outi: array<Limb>, digit: nat) returns (c: Limb)
    requires digit < 58
    modifies outi
    ensures Stepped(old(outi[..]), 58, digit, BASE, outi[..])
    ensures c == Carry(old(outi[..]), 58, digit, BASE, outi.Length)
  {
    hide Carry, NewDigit;
    ghost var s: seq<nat> := outi[..];
    c := digit;
    CarryStart(s, 58, digit, BASE);
    var j := outi.Length;
    while j > 0
      invariant 0 <= j <= outi.Length && c < 58
      invariant c == Carry(s, 58, digit, BASE, |s| - j)
      invariant forall k :: 0 <= k < j ==> outi[k] == s[k]
      invariant forall k :: j <= k < outi.Length ==> outi[k] == NewDigit(s, 58, digit, BASE, k)
    {
      j := j - 1;
      CarryStep(s, 58, digit, BASE, j);
      var word: nat := outi[j];
      var t: Word64 := word * 58 + c;
      c := t / BASE;
      outi[j] := t % BASE;
    }
  }

  /** The n low bytes of a word, most significant first. */
  method WordBytes(w: Limb, n: nat) returns (bs: seq<Byte>)
    requires w < Power(256, n)
    ensures |bs| == n && Num(bs, 256) == w
  {
    bs := [];
    var i := n;
    DivUnique(w, Power(256, n), 0, w);
    while i > 0
      invariant 0 <= i <= n && |bs| == n - i && Num(bs, 256) == w / Power(256, i)
    {
      ByteStep(w, Power(256, i - 1));
      ghost var before := bs;
      bs := bs + [(w / Power(256, i - 1)) % 256];
      assert bs[..|bs| - 1] == before;
      i := i - 1;
    }
    DivUnique(w, Power(256, 0), w, 0);
  }

  lemma ByteStep(w: nat, p: nat)
    requires p > 0
    ensures w / p == (w / (256 * p)) * 256 + (w / p) % 256
  {
    var q, r := (w / p) / 256, (w / p) % 256;
    DivMod(w, p);
    assert w == q * (256 * p) + (r * p + w % p) by { Distribute(256 * q, r, p); assert 256 * q * p == q * (256 * p); }
    MulMono(r, 255, p);
    MulMono(0, r, p);
    DivUnique(w, 256 * p, q, r * p + w % p);
  }

  /** The value of a text's first n characters; more characters never make it smaller. */
  lemma {:induction false} PrefixNum(s: string, n: nat, m: nat)
    requires n <= m <= |s| && IsText(s[..m])
    ensures TextNum(s[..n]) <= TextNum(s[..m])
    ensures n < m ==> TextNum(s[..n + 1]) == 58 * TextNum(s[..n]) + DigitOf(s[n])
    decreases m - n
  {
    if n < m {
      var a, b := Digits(s[..n]), Digits(s[..n + 1]);
      assert b[..|b| - 1] == a;
      PrefixNum(s, n + 1, m);
    }
  }

  /** Word buffers as big as the byte buffer: what the top word says about the whole number. */
  lemma TopWord(words: seq<nat>, binsz: nat)
    requires binsz > 0 && |words| == (binsz + 3) / 4 && DigitsOf(words, BASE)
    ensures Power(BASE, |words|) >= Power(256, binsz)
    ensures Num(words, BASE) < Power(256, binsz) <==> binsz % 4 == 0 || words[0] < Power(256, binsz % 4)
  {
    var r, n := binsz % 4, |words| - 1;
    assert binsz == if r == 0 then 4 * |words| else r + 4 * n;
    hide Num, Power, DigitsOf;
    WordPower(|words|);
    WordPower(n);
    PowerMonoExp(256, binsz, 4 * |words|);
    NumBound(words, BASE);
    if r != 0 {
      PowerAdd(256, r, 4 * n);
      TopDigit(words, BASE, Power(256, r));
    }
  }

  lemma WordPower(n: nat)
    ensures Power(BASE, n) == Power(256, 4 * n)
  {
    assert Power(256, 4) == BASE;
    PowerMul(256, 4, n);
  }

  /** Comparing a number with a multiple of the top digit's weight is comparing the top digit. */
  lemma TopDigit(words: seq<nat>, b: nat, cut: nat)
    requires b > 1 && words != [] && DigitsOf(words, b)
    ensures Num(words, b) < cut * Power(b, |words| - 1) <==> words[0] < cut
  {
    var rest := words[1..];
    assert words == [words[0]] + rest;
    NumConcat([words[0]], rest, b);
    assert Num([words[0]], b) == Num([], b) * b + words[0];
    NumBound(rest, b);
    TopSplit(words[0], cut, Num(rest, b), Power(b, |rest|));
  }

  lemma TopSplit(w: nat, cut: nat, low: nat, p: nat)
    requires low < p
    ensures w * p + low < cut * p <==> w < cut
  {
    if w < cut { MulMono(w + 1, cut, p); Distribute(w, 1, p); } else { MulMono(cut, w, p); }
  }

  /** A number that needs more than n bytes. */
  lemma TooLong(v: nat, n: nat)
    requires v >= Power(256, n)
    ensures |ToDigits(v, 256)| > n
  {
    NumToDigits(v, 256);
    NumBound(ToDigits(v, 256), 256);
    if |ToDigits(v, 256)| <= n { PowerMonoExp(256, |ToDigits(v, 256)|, n); }
  }

  /** The words of the number, unless a character is bad or the number needs more than binsz bytes. */
  method ReadText(b58: string, zerocount: nat, binsz: nat) returns (ok: bool, outi: array<Limb>)
    requires binsz > 0 && zerocount <= |b58| && forall k :: 0 <= k < zerocount ==> b58[k] == '1'
    ensures fresh(outi) && outi.Length == (binsz + 3) / 4
    ensures !ok ==> !IsText(b58) || |ToDigits(TextNum(b58), 256)| > binsz
    ensures ok ==> IsText(b58) && Num(outi[..], BASE) == TextNum(b58) < Power(256, binsz)
    ensures ok && binsz % 4 != 0 ==> outi[0] < Power(256, binsz % 4)
  {
    hide ToDigits, Stepped, Carry, Num, Power;
    outi := new Limb[(binsz + 3) / 4](i => 0);
    NumOfZeros(outi[..], BASE);
    NumOfZeros(Digits(b58[..zerocount]), 58);
    var i := zerocount;
    while i < |b58|
      invariant zerocount <= i <= |b58| && IsText(b58[..i])
      invariant Num(outi[..], BASE) == TextNum(b58[..i]) < Power(256, binsz)
      invariant binsz % 4 != 0 ==> outi[0] < Power(256, binsz % 4)
    {
      var digit := DigitOf(b58[i]);
      if digit == -1 { return false, outi; }
      ghost var s: seq<nat> := outi[..];
      var c := AddDigit(outi, digit);
      assert IsText(b58[..i + 1]);
      ReadStep(b58, i, binsz, s, outi[..]);
      if c != 0 { return false, outi; }
      if binsz % 4 != 0 && outi[0] >= Power(256, binsz % 4) { return false, outi; }
      i := i + 1;
    }
    assert b58[..|b58|] == b58;
    ok := true;
  }

  /** What one more character does to the words, and what the two overflow tests say about it. */
  lemma ReadStep(b58: string, i: nat, binsz: nat, s: seq<nat>, t: seq<nat>)
    requires binsz > 0 && i < |b58| && IsText(b58[..i + 1]) && |s| == (binsz + 3) / 4
    requires Num(s, BASE) == TextNum(b58[..i]) && Stepped(s, 58, DigitOf(b58[i]), BASE, t)
    ensures Fits(s, DigitOf(b58[i]), t, binsz) ==> Num(t, BASE) == TextNum(b58[..i + 1]) < Power(256, binsz)
    ensures !Fits(s, DigitOf(b58[i]), t, binsz) ==> !IsText(b58) || |ToDigits(TextNum(b58), 256)| > binsz
  {
    hide ToDigits, Stepped, Carry;
    var v := TextNum(b58[..i + 1]);
    PrefixNum(b58, i, i + 1);
    SteppedFits(s, DigitOf(b58[i]), t, binsz);
    if v >= Power(256, binsz) && IsText(b58) { Overflowed(b58, i + 1, binsz); }
  }

  /** Neither test fires: no carry out, and no bits in the top word beyond the bytes asked for. */
  ghost predicate Fits(s: seq<nat>, d: nat, t: seq<nat>, binsz: nat)
    requires |t| > 0
  {
    Carry(s, 58, d, BASE, |s|) == 0 && (binsz % 4 == 0 || t[0] < Power(256, binsz % 4))
  }

  lemma SteppedFits(s: seq<nat>, d: nat, t: seq<nat>, binsz: nat)
    requires binsz > 0 && |s| == (binsz + 3) / 4 && Stepped(s, 58, d, BASE, t)
    ensures Fits(s, d, t, binsz) <==> 58 * Num(s, BASE) + d < Power(256, binsz)
    ensures Fits(s, d, t, binsz) ==> Num(t, BASE) == 58 * Num(s, BASE) + d
  {
    assert |t| == |s|;
    hide Num, Carry, Stepped, Power;
    SteppedNum(s, 58, d, BASE, t);
    DigitsBelow(s, 58, d, BASE, t);
    TopWord(t, binsz);
  }

  /** A prefix too big for the buffer settles the whole text. */
  lemma Overflowed(b58: string, i: nat, binsz: nat)
    requires i <= |b58| && IsText(b58) && TextNum(b58[..i]) >= Power(256, binsz)
    ensures |ToDigits(TextNum(b58), 256)| > binsz
  {
    assert b58[..|b58|] == b58;
    PrefixNum(b58, i, |b58|);
    TooLong(TextNum(b58), binsz);
  }

  /** The words written out as binsz bytes. */
  method WriteBytes(outi: array<Limb>, binsz: nat) returns (bin: seq<Byte>)
    requires binsz > 0 && outi.Length == (binsz + 3) / 4
    requires binsz % 4 != 0 ==> outi[0] < Power(256, binsz % 4)
    ensures |bin| == binsz && Num(bin, 256) == Num(outi[..], BASE)
  {
    bin := [];
    var j := 0;
    var bytesleft := binsz % 4;
    if bytesleft != 0 {
      bin := WordBytes(outi[0], bytesleft);
      j := 1;
      assert Num(outi[..1], BASE) == Num(outi[..1][..0], BASE) * BASE + outi[0];
    }
    assert Power(256, 4) == BASE;
    while j < outi.Length
      invariant j <= outi.Length && |bin| == binsz - 4 * (outi.Length - j)
      invariant Num(bin, 256) == Num(outi[..j], BASE)
    {
      var bs := WordBytes(outi[j], 4);
      NumConcat(bin, bs, 256);
      assert outi[..j + 1][..j] == outi[..j];
      bin := bin + bs;
      j := j + 1;
    }
    assert outi[..outi.Length] == outi[..];
  }

  method B58ToBin(b58: string, binsz: nat) returns (ok: bool, bin: seq<Byte>, size: nat)
    ensures ok <==> binsz > 0 && IsText(b58) && |Decode(b58)| <= binsz
    ensures ok ==> size == |Decode(b58)| && bin == Repeat(0, binsz - size) + Decode(b58)
  {
    if binsz == 0 { return false, [], 0; }
    var zerocount := 0;
    while zerocount < |b58| && b58[zerocount] == '1'
      invariant zerocount <= |b58| && forall k :: 0 <= k < zerocount ==> b58[k] == '1'
    {
      zerocount := zerocount + 1;
    }
    hide ToDigits, Num, Decode, Lead, LeadOnes;
    LeadOnesIs(b58, zerocount);
    if IsText(b58) { DecodeSize(b58); }
    var read, outi := ReadText(b58, zerocount, binsz);
    if !read { return false, [], 0; }
    bin := WriteBytes(outi, binsz);
    var i := 0;
    while i < binsz && bin[i] == 0
      invariant i <= binsz && forall k :: 0 <= k < i ==> bin[k] == 0
    {
      i := i + 1;
    }
    LeadIs(bin, i);
    BytesCanonical(bin);
    SplitZeros(b58, bin, zerocount);
    if zerocount > i { return false, [], 0; }
    size := binsz - i + zerocount;
    ok := true;
  }

  /** The bytes written are the decoded bytes behind zero padding, unless the leading ones need more room. */
  lemma SplitZeros(b58: string, bin: seq<nat>, ones: nat)
    requires IsText(b58) && LeadOnes(b58) == ones
    requires bin == Repeat(0, Lead(bin)) + ToDigits(TextNum(b58), 256)
    ensures |Decode(b58)| == |bin| - Lead(bin) + ones
    ensures ones <= Lead(bin) ==> bin == Repeat(0, Lead(bin) - ones) + Decode(b58)
  {
    hide ToDigits, TextNum, Lead, LeadOnes;
    if ones <= Lead(bin) { ZerosRegroup(Lead(bin), ones, ToDigits(TextNum(b58), 256)); }
  }

  lemma ZerosRegroup(n: nat, k: nat, t: seq<nat>)
    requires k <= n
    ensures Repeat(0, n) + t == Repeat(0, n - k) + (Repeat(0, k) + t)
  {
    assert Repeat(0, n) == Repeat(0, n - k) + Repeat(0, k);
  }

  lemma DecodeSize(s: string)
    requires IsText(s)
    ensures |Decode(s)| == LeadOnes(s) + |ToDigits(TextNum(s), 256)|
  {}

  lemma {:induction false} LeadOnesIs(s: string, z: nat)
    requires z <= |s| && (z < |s| ==> s[z] != '1')
    requires forall k :: 0 <= k < z ==> s[k] == '1'
    ensures LeadOnes(s) == z
  {
    if z > 0 { LeadOnesIs(s[1..], z - 1); }
  }

  /** The round trip through both buffers: any byte string, any buffer at least as long. */
  method RoundTrip(data: seq<Byte>, binsz: nat) returns (bin: seq<Byte>, size: nat)
    requires binsz > 0 && binsz >= |data|
    ensures size == |data| && |bin| == binsz && bin == Repeat(0, binsz - size) + data
  {
    DecodeEncode(data);
    var _, _, need := B58Enc(data, 0);
    var ok, text, _ := B58Enc(data, need);
    var ok';
    ok', bin, size := B58ToBin(text, binsz);
  }
}
