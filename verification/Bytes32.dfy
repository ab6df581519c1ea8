/**
 The bridge between 32 big-endian bytes (hashes, targets, chain work) and
 little-endian limbs, and the order of both.
 */
module Bytes32 {
  import opened ArithUint256
  import Bits
  import opened Limbs
  import opened LimbSteps

  type Digest = b: seq<Byte> | |b| == 32 witness seq(32, _ => 0)

  /** The number the first n bytes stand for, most significant first. */
  ghost function BigEndian(b: seq<Byte>, n: nat): (v: nat)
    requires n <= |b|
  {
    if n == 0 then 0 else BigEndian(b, n - 1) * 0x100 + b[n - 1]
  }

  /** A digest as a number. */
  ghost function Number(b: Digest): (v: nat) { BigEndian(b, 32) }

  /** Four bytes from offset `at`, most significant first. */
  function Word(b: Digest, at: nat): (w: Limb)
    requires at + 4 <= 32
  {
    Bits.Pack(b[at], b[at + 1], b[at + 2], b[at + 3])
  }

  method FromBytes(b: Digest) returns (out: Uint256)
    ensures fresh(out) && fresh(out.pn) && out.Valid()
    ensures out.Value() == Number(b)
  {
    out := new Uint256(0);
    for limb := 0 to 8
      invariant forall k :: 0 <= k < limb ==> out.pn[k] == Word(b, 28 - 4 * k)
    {
      out.pn[limb] := Word(b, 32 - 4 * (limb + 1));
    }
    WordsAreNumber(b, out.pn[..], 8, 8);
  }

  method ToBytes(a: Uint256) returns (out: Digest)
    requires a.Valid()
    ensures Number(out) == a.Value()
  {
    hide Word;
    var buf := new Byte[32](i => 0);
    for limb := 0 to 8
      invariant forall k :: 0 <= k < limb ==> WordAt(buf[..], 28 - 4 * k, a.pn[k])
    {
      ghost var before := buf[..];
      PutWord(buf, 32 - 4 * (limb + 1), a.pn[limb]);
      forall k | 0 <= k < limb
        ensures WordAt(buf[..], 28 - 4 * k, a.pn[k])
      {
        assert WordAt(before, 28 - 4 * k, a.pn[k]);
        WordKept(before, buf[..], 28 - 4 * k);
      }
    }
    out := buf[..];
    WordsAreNumber(out, a.pn[..], 8, 8);
  }

  lemma WordKept(b: Digest, c: Digest, at: nat)
    requires at + 4 <= 32 && b[at..at + 4] == c[at..at + 4]
    ensures Word(b, at) == Word(c, at)
  {
    var x, y := b[at..at + 4], c[at..at + 4];
    assert b[at] == x[0] && b[at + 1] == x[1] && b[at + 2] == x[2] && b[at + 3] == x[3];
    assert c[at] == y[0] && c[at + 1] == y[1] && c[at + 2] == y[2] && c[at + 3] == y[3];
  }

  method PutWord(buf: array<Byte>, base: nat, x: Limb)
    requires buf.Length == 32 && base + 4 <= 32
    modifies buf
    ensures WordAt(buf[..], base, x)
    ensures forall i :: 0 <= i < 32 && !(base <= i < base + 4) ==> buf[i] == old(buf[i])
  {
    Bits.PackBytes(x);
    buf[base] := Bits.ByteOf(x, 0);
    buf[base + 1] := Bits.ByteOf(x, 1);
    buf[base + 2] := Bits.ByteOf(x, 2);
    buf[base + 3] := Bits.ByteOf(x, 3);
  }

  ghost predicate WordAt(b: seq<Byte>, at: int, w: Limb)
  {
    |b| == 32 && 0 <= at <= 28 && Word(b, at) == w
  }

  /** The top j limbs are the first 4j bytes. */
  lemma {:induction false} WordsAreNumber(b: Digest, s: seq<Limb>, n: nat, j: nat)
    requires |s| == n == 8 && j <= n
    requires forall k :: 0 <= k < n ==> s[k] == Word(b, 28 - 4 * k)
    ensures Val(s, n) == Val(s, n - j) + BigEndian(b, 4 * j) * Weight(n - j)
  {
    hide Word;
    if j > 0 {
      WordsAreNumber(b, s, n, j - 1);
      FourBytes(b, 4 * (j - 1));
      WordStep(BigEndian(b, 4 * (j - 1)), s[n - j], Weight(n - j));
    }
  }

  lemma WordStep(hi: int, x: int, w: int)
    ensures x * w + hi * (BASE * w) == (hi * BASE + x) * w
  {
    Distribute(hi * BASE, x, w);
    MulAssoc(hi, BASE, w);
  }

  lemma FourBytes(b: Digest, n: nat)
    requires n + 4 <= 32
    ensures BigEndian(b, n + 4) == BigEndian(b, n) * BASE + Word(b, n)
  {
    assert BigEndian(b, n + 2) == BigEndian(b, n + 1) * 0x100 + b[n + 1];
    assert BigEndian(b, n + 3) == BigEndian(b, n + 2) * 0x100 + b[n + 2];
  }

  /** memcmp on two digests, as the sign of the first difference. */
  method Compare(a: Digest, b: Digest) returns (c: int)
    ensures c == (if Number(a) < Number(b) then -1 else if Number(a) > Number(b) then 1 else 0)
  {
    for i := 0 to 32
      invariant forall k :: 0 <= k < i ==> a[k] == b[k]
    {
      if a[i] < b[i] {
        FirstDifference(a, b, i);
        return -1;
      }
      if a[i] > b[i] {
        FirstDifference(b, a, i);
        return 1;
      }
    }
    SamePrefix(a, b, 32);
    return 0;
  }

  lemma {:induction false} SamePrefix(a: seq<Byte>, b: seq<Byte>, n: nat)
    requires n <= |a| && n <= |b|
    requires forall k :: 0 <= k < n ==> a[k] == b[k]
    ensures BigEndian(a, n) == BigEndian(b, n)
  {
    if n > 0 { SamePrefix(a, b, n - 1); }
  }

  lemma FirstDifference(a: Digest, b: Digest, i: nat)
    requires i < 32 && a[i] < b[i]
    requires forall k :: 0 <= k < i ==> a[k] == b[k]
    ensures Number(a) < Number(b)
  {
    SamePrefix(a, b, i);
    StaysBelow(a, b, i + 1, 32);
  }

  lemma {:induction false} StaysBelow(a: seq<Byte>, b: seq<Byte>, m: nat, n: nat)
    requires m <= n <= |a| && n <= |b|
    requires BigEndian(a, m) < BigEndian(b, m)
    ensures BigEndian(a, n) < BigEndian(b, n)
  {
    if m < n { StaysBelow(a, b, m, n - 1); }
  }
}
