/** PBKDF2-HMAC-SHA256 on cached pad digests and words that are transformed in place. */
module Pbkdf2 {
  import opened Limbs
  import opened Bits
  import opened Sha256
  import opened Hashing
  import opened Hmac

  // ---------- RFC 8018, section 5.2 ----------

  /** U_c for block i: the first one keyed on the salt and the block number, each other on the one before. */
  function U(pass: seq<Byte>, salt: seq<Byte>, i: Word, c: nat): (u: seq<Byte>)
    requires c >= 1
    ensures |u| == 32
    decreases c
  {
    if c == 1 then MacOf(pass, salt + Bytes([i])) else MacOf(pass, U(pass, salt, i, c - 1))
  }

  function XorSeq(s: seq<Byte>, t: seq<Byte>): (r: seq<Byte>)
    requires |s| == |t|
    ensures |r| == |s|
  {
    seq(|s|, i requires 0 <= i < |s| => Xor8(s[i], t[i]))
  }

  /** F: the exclusive or of U_1 to U_c. */
  function T(pass: seq<Byte>, salt: seq<Byte>, i: Word, c: nat): (t: seq<Byte>)
    requires c >= 1
    ensures |t| == 32
    decreases c
  {
    if c == 1 then U(pass, salt, i, 1) else XorSeq(T(pass, salt, i, c - 1), U(pass, salt, i, c))
  }

  /** T_1, T_2, ..., T_n one after the other. */
  function Blocks(pass: seq<Byte>, salt: seq<Byte>, c: nat, n: nat): (s: seq<Byte>)
    requires c >= 1 && n < BASE
    ensures |s| == 32 * n
  {
    if n == 0 then [] else Blocks(pass, salt, c, n - 1) + T(pass, salt, n, c)
  }

  /** The derived key: as many blocks as needed, cut to length. */
  function DerivedKey(pass: seq<Byte>, salt: seq<Byte>, c: nat, length: nat): (key: seq<Byte>)
    requires c >= 1 && (length + 31) / 32 < BASE
    ensures |key| == length
  {
    Blocks(pass, salt, c, (length + 31) / 32)[..length]
  }

  // ---------- One HMAC of 32 bytes is two transforms ----------

  /** The words behind the 32 bytes: the 1 bit and the length of 96 bytes. */
  const TAIL: seq<Word> := [0x8000_0000, 0, 0, 0, 0, 0, 0, 768]

  lemma TailWords(front: seq<Byte>, field: seq<Byte>, n: Word)
    requires front == [0x80] + Zeros(23) && |field| == 8 && Words(field) == [0, n]
    ensures Words(front + field) == [0x8000_0000, 0, 0, 0, 0, 0, 0, n]
  {
    hide Words;
    FrontWords(front);
    WordsConcat(front, field);
  }

  lemma FieldWords(count: Word64)
    ensures Words(LengthField(count)) == [count / BASE, count % BASE]
  {
    hide Words, Bytes;
    WordsOfBytes([count / BASE, count % BASE]);
  }

  lemma FrontWords(s: seq<Byte>)
    requires s == [0x80] + Zeros(23)
    ensures Words(s) == [0x8000_0000, 0, 0, 0, 0, 0]
  {
    assert forall k :: 1 <= k < 24 ==> s[k] == 0;
    forall i | 0 <= i < 6
      ensures Words(s)[i] == if i == 0 then 0x8000_0000 else 0
    {
      assert s[4 * i + 1] == 0 && s[4 * i + 2] == 0 && s[4 * i + 3] == 0;
    }
  }

  lemma SecondBlock(block: seq<Byte>, u: seq<Byte>)
    requires |block| == 64 && |u| == 32
    ensures HashOf(block + u) == Bytes(Compress(Fold(block), Words(u) + TAIL))
  {
    hide HashOf, Fold, Compress, Words, Bytes, LengthField;
    var tail := [0x80] + Zeros(23) + LengthField(768);
    assert Words(LengthField(768)) == [0, 768] by { FieldWords(768); }
    PadOneBlock(block + u);
    HashIs(block + u);
    assert BitCount(96) == 768;
    assert Pad(block + u) == block + (u + tail);
    FoldAppend(block, u + tail);
    WordsConcat(u, tail);
    TailWords([0x80] + Zeros(23), LengthField(768), 768);
  }

  lemma HmacWords(pass: seq<Byte>, u: seq<Byte>, inner: seq<Word>)
    requires |u| == 32 && inner == Compress(Fold(InnerPad(pass)), Words(u) + TAIL)
    ensures Words(MacOf(pass, u)) == Compress(Fold(OuterPad(pass)), inner + TAIL)
  {
    hide Fold, Compress, Words, Bytes, HashOf, InnerPad, OuterPad;
    SecondBlock(InnerPad(pass), u);
    OuterWords(pass, u, inner);
  }

  lemma OuterWords(pass: seq<Byte>, msg: seq<Byte>, inner: seq<Word>)
    requires |inner| == 8 && HashOf(InnerPad(pass) + msg) == Bytes(inner)
    ensures Words(MacOf(pass, msg)) == Compress(Fold(OuterPad(pass)), inner + TAIL)
  {
    hide Fold, Compress, Words, Bytes, HashOf, InnerPad, OuterPad;
    SecondBlock(OuterPad(pass), Bytes(inner));
    WordsOfBytes(inner);
    WordsOfBytes(Compress(Fold(OuterPad(pass)), inner + TAIL));
  }

  /** Xor-ing byte strings is xor-ing their words. */
  lemma XorSeqWords(s: seq<Byte>, t: seq<Byte>)
    requires |s| == |t| && |s| % 4 == 0
    ensures forall i :: 0 <= i < |s| / 4 ==> Words(XorSeq(s, t))[i] == Xor32(Words(s)[i], Words(t)[i])
  {
    hide Pack, Xor8, Xor32;
    forall i | 0 <= i < |s| / 4
      ensures Words(XorSeq(s, t))[i] == Xor32(Words(s)[i], Words(t)[i])
    {
      XorPacked(s[4 * i], s[4 * i + 1], s[4 * i + 2], s[4 * i + 3],
                t[4 * i], t[4 * i + 1], t[4 * i + 2], t[4 * i + 3]);
    }
  }

  // ---------- The context ----------

  class Pbkdf2Context {
    const odig: array<Word>
    const idig: array<Word>
    const f: array<Word>
    const g: array<Word>
    var first: nat

    ghost predicate Shape()
    {
      && odig.Length == 8 && idig.Length == 8 && f.Length == 8 && g.Length == 16
      && odig != idig && odig != f && idig != f
    }

    /** The pads are prepared and g carries the padding of a 96-byte message. */
    ghost predicate Keyed(pass: seq<Byte>)
      reads odig, idig, g
    {
      Shape() && odig[..] == Fold(OuterPad(pass)) && idig[..] == Fold(InnerPad(pass)) && g[8..] == TAIL
    }

    /** c iterations are done: g starts with U_c and f holds T with that count. */
    ghost predicate Holds(pass: seq<Byte>, salt: seq<Byte>, i: Word, c: nat)
      requires c >= 1
      reads odig, idig, f, g
    {
      && Keyed(pass)
      && g[..8] == Words(U(pass, salt, i, c))
      && f[..] == Words(T(pass, salt, i, c))
    }

    /** Nothing of the password or the derived key is left behind. */
    ghost predicate Wiped()
      reads odig, idig, f, g
    {
      && Shape()
      && (forall k :: 0 <= k < 8 ==> odig[k] == 0 && idig[k] == 0 && f[k] == 0)
      && (forall k :: 0 <= k < 16 ==> g[k] == 0)
    }

    constructor (pass: seq<Byte>, salt: seq<Byte>, blocknr: Word)
      ensures fresh(odig) && fresh(idig) && fresh(f) && fresh(g)
      ensures Holds(pass, salt, blocknr, 1) && first == 1
    {
      hide Fold, U, T, Words, InnerPad, OuterPad;
      odig := new Word[8](_ => 0);
      idig := new Word[8](_ => 0);
      f := new Word[8](_ => 0);
      g := new Word[16](_ => 0);
      first := 1;
      new;
      Start(pass, salt, blocknr);
    }

    method Start(pass: seq<Byte>, salt: seq<Byte>, blocknr: Word)
      requires Shape()
      modifies odig, idig, f, g
      ensures Holds(pass, salt, blocknr, 1)
    {
      hide HashOf, MacOf, Fold, Compress, Words, Bytes, InnerPad, OuterPad, Holding;
      Prepare(pass, odig, idig);
      forall k | 0 <= k < 8 { g[8 + k] := TAIL[k]; }
      var digest := Salted(pass, salt, blocknr);
      var words := Words(digest);
      forall k | 0 <= k < 8 { g[k] := words[k]; }
      assert g[8..] == TAIL && g[..8] == words && g[..] == words + TAIL;
      BytesOfWords(digest);
      OuterWords(pass, salt + Bytes([blocknr]), words);
      assert odig[..] == Fold(OuterPad(pass));
      Transform(odig, g, g);
      assert g[..8] == Words(MacOf(pass, salt + Bytes([blocknr])));
      assert U(pass, salt, blocknr, 1) == MacOf(pass, salt + Bytes([blocknr]));
      forall k | 0 <= k < 8 { f[k] := g[k]; }
      assert f[..] == g[..8] == Words(U(pass, salt, blocknr, 1));
      assert Keyed(pass);
    }

    /** The inner hash of the salt and the block number, started from the inner pad's digest. */
    method Salted(pass: seq<Byte>, salt: seq<Byte>, blocknr: Word) returns (digest: seq<Byte>)
      requires Shape() && idig[..] == Fold(InnerPad(pass))
      ensures digest == HashOf(InnerPad(pass) + (salt + Bytes([blocknr])))
    {
      assert BitCount(64) == 512;
      hide HashOf, Fold, Bytes, InnerPad, Holding, BitCount;
      ghost var pad := InnerPad(pass);
      var ctx := new Context.Resume(idig[..], pad, 512);
      ctx.Update(salt, pad);
      ctx.Update(Bytes([blocknr]), pad + salt);
      assert pad + salt + Bytes([blocknr]) == pad + (salt + Bytes([blocknr]));
      digest := ctx.Final(pad + (salt + Bytes([blocknr])));
    }

    /** Runs up to the given count the first time, and that many more after that. */
    method Update(iterations: nat, ghost pass: seq<Byte>, ghost salt: seq<Byte>, ghost i: Word, ghost c: nat)
      returns (ghost d: nat)
      requires c >= 1 && Holds(pass, salt, i, c) && (first == 1 ==> c == 1) && first <= 1
      modifies this`first, f, g
      ensures d == c + (if old(first) == 0 then iterations else if iterations == 0 then 0 else iterations - 1)
      ensures Holds(pass, salt, i, d) && first == 0
    {
      hide Holds;
      d := c;
      var start := first;
      var n := start;
      while n < iterations
        invariant start <= n && d == c + n - start && (n <= iterations || n == start) && Holds(pass, salt, i, d)
      {
        Iterate(pass, salt, i, d);
        d := d + 1;
        n := n + 1;
      }
      first := 0;
    }

    method Iterate(ghost pass: seq<Byte>, ghost salt: seq<Byte>, ghost i: Word, ghost c: nat)
      requires c >= 1 && Holds(pass, salt, i, c)
      modifies f, g
      ensures Holds(pass, salt, i, c + 1)
    {
      hide MacOf, Fold, Compress, Words, InnerPad, OuterPad, Xor32, XorSeq;
      ghost var u := U(pass, salt, i, c);
      ghost var t := T(pass, salt, i, c);
      assert g[..] == Words(u) + TAIL;
      Transform(idig, g, g);
      ghost var inner := g[..8];
      assert g[..] == inner + TAIL;
      HmacWords(pass, u, inner);
      Transform(odig, g, g);
      ghost var v := U(pass, salt, i, c + 1);
      assert g[..8] == Words(v);
      XorSeqWords(t, v);
      Mix(Words(t), Words(v));
      assert f[..] == Words(XorSeq(t, v));
    }

    method Mix(ghost t: seq<Word>, ghost v: seq<Word>)
      requires f.Length == 8 && g.Length == 16 && f != g && f[..] == t && g[..8] == v
      modifies f
      ensures |f[..]| == 8 && forall j :: 0 <= j < 8 ==> f[j] == Xor32(t[j], v[j])
    {
      hide Xor32;
      for j := 0 to 8
        invariant forall k :: 0 <= k < j ==> f[k] == Xor32(t[k], v[k])
        invariant forall k :: j <= k < 8 ==> f[k] == t[k]
      {
        f[j] := Xor32(f[j], g[j]);
      }
    }

    method Final(ghost pass: seq<Byte>, ghost salt: seq<Byte>, ghost i: Word, ghost c: nat) returns (key: seq<Byte>)
      requires c >= 1 && Holds(pass, salt, i, c)
      modifies this`first, odig, idig, f, g
      ensures key == T(pass, salt, i, c)
      ensures Wiped() && first == 0
    {
      hide T, U, Fold, Words, Bytes;
      key := Bytes(f[..]);
      BytesOfWords(T(pass, salt, i, c));
      forall k | 0 <= k < 8 { odig[k] := 0; }
      forall k | 0 <= k < 8 { idig[k] := 0; }
      forall k | 0 <= k < 8 { f[k] := 0; }
      forall k | 0 <= k < 16 { g[k] := 0; }
      first := 0;
    }
  }

  /** The iterations that take effect: a count of zero does the work of one. */
  function Effective(iterations: Word): (c: nat)
    ensures c >= 1
  {
    if iterations == 0 then 1 else iterations
  }

  method DeriveKey(pass: seq<Byte>, salt: seq<Byte>, iterations: Word, key: array<Byte>)
    requires key.Length < 0x8000_0000
    modifies key
    ensures key[..] == DerivedKey(pass, salt, Effective(iterations), key.Length)
  {
    hide T, Blocks;
    var lastSize, count := key.Length % 32, key.Length / 32;
    if lastSize != 0 {
      count := count + 1;
    } else {
      lastSize := 32;
    }
    ghost var c := Effective(iterations);
    BlocksStep(pass, salt, c, 0);
    for blocknr := 1 to count + 1
      invariant blocknr <= count ==> key[..32 * (blocknr - 1)] == Blocks(pass, salt, c, blocknr - 1)
      invariant blocknr == count + 1 ==> key[..] == Blocks(pass, salt, c, count)[..key.Length]
    {
      var digest := OneBlock(pass, salt, iterations, blocknr);
      var size := if blocknr < count then 32 else lastSize;
      var offset := 32 * (blocknr - 1);
      Store(key, offset, digest[..size]);
      BlocksStep(pass, salt, c, blocknr);
    }
  }

  method Store(key: array<Byte>, offset: nat, part: seq<Byte>)
    requires offset + |part| <= key.Length
    modifies key
    ensures key[..offset + |part|] == old(key[..offset]) + part
  {
    forall k | 0 <= k < |part| { key[offset + k] := part[k]; }
  }

  method OneBlock(pass: seq<Byte>, salt: seq<Byte>, iterations: Word, blocknr: Word) returns (digest: seq<Byte>)
    ensures digest == T(pass, salt, blocknr, Effective(iterations))
  {
    hide T, U, Fold, Words, InnerPad, OuterPad;
    var pctx := new Pbkdf2Context(pass, salt, blocknr);
    ghost var c := pctx.Update(iterations, pass, salt, blocknr, 1);
    digest := pctx.Final(pass, salt, blocknr, c);
  }

  lemma BlocksStep(pass: seq<Byte>, salt: seq<Byte>, c: nat, n: nat)
    requires c >= 1 && n < BASE
    ensures Blocks(pass, salt, c, n) == if n == 0 then [] else Blocks(pass, salt, c, n - 1) + T(pass, salt, n, c)
  {}
}
