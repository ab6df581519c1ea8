/** SHA-256 of a message: padding, and the context that takes the message in pieces. */
module Hashing {
  import opened Limbs
  import opened Bits
  import opened Sha256

  // ---------- FIPS 180-4, sections 5.1.1, 5.2.1 and 6.2 ----------

  /** The compression function folded over whole 64-byte blocks. */
  function Fold(s: seq<Byte>): (h: seq<Word>)
    requires |s| % 64 == 0
    ensures |h| == 8
  {
    if s == [] then INITIAL else Compress(Fold(s[..|s| - 64]), Words(s[|s| - 64..]))
  }

  function Zeros(n: nat): (z: seq<Byte>)
    ensures |z| == n
  {
    seq(n, _ => 0)
  }

  /** The message length in bits, as the 64-bit counter holds it. */
  function BitCount(n: nat): Word64 { 8 * n % 0x1_0000_0000_0000_0000 }

  /** A 64-bit number as eight bytes, most significant first. */
  function LengthField(count: Word64): (s: seq<Byte>)
    ensures |s| == 8
  {
    Bytes([count / BASE, count % BASE])
  }

  /** The number of zero bytes after the 1 bit. */
  function Gap(n: nat): (k: nat)
    ensures (n + 1 + k) % 64 == 56
  {
    (119 - n % 64) % 64
  }

  lemma GapIsLeast(n: nat, k: nat)
    requires (n + 1 + k) % 64 == 56
    ensures Gap(n) <= k
  {}

  lemma PadFits(n: nat)
    ensures (n + 1 + Gap(n) + 8) % 64 == 0
  {
    hide Gap;
    var x := n + 1 + Gap(n);
    assert x == 64 * (x / 64) + 56;
  }

  function Pad(msg: seq<Byte>): (s: seq<Byte>)
    ensures |s| % 64 == 0
  {
    PadFits(|msg|);
    msg + [0x80] + Zeros(Gap(|msg|)) + LengthField(BitCount(|msg|))
  }

  function HashOf(msg: seq<Byte>): (digest: seq<Byte>)
    ensures |digest| == 32
  {
    seq(32, i requires 0 <= i < 32 => Bytes(Fold(Pad(msg)))[i])
  }

  lemma HashIs(msg: seq<Byte>)
    ensures HashOf(msg) == Bytes(Fold(Pad(msg)))
  {
    hide Fold, Pad, Bytes;
  }

  lemma FoldAppend(s: seq<Byte>, block: seq<Byte>)
    requires |s| % 64 == 0 && |block| == 64
    ensures Fold(s + block) == Compress(Fold(s), Words(block))
  {
    hide Compress;
    assert (s + block)[..|s|] == s && (s + block)[|s|..] == block;
  }

  lemma FoldOne(block: seq<Byte>)
    requires |block| == 64
    ensures Fold(block) == Compress(INITIAL, Words(block))
  {
    hide Compress;
    FoldAppend([], block);
    assert [] + block == block;
  }

  /** How many bytes of a message sit in whole blocks. */
  function Whole(n: nat): (w: nat)
    ensures w <= n && w % 64 == 0 && n - w == n % 64
  {
    n - n % 64
  }

  lemma PadOneBlock(msg: seq<Byte>)
    requires |msg| % 64 <= 55
    ensures Pad(msg) == msg[..Whole(|msg|)]
                      + (msg[Whole(|msg|)..] + [0x80] + Zeros(55 - |msg| % 64) + LengthField(BitCount(|msg|)))
  {
    hide LengthField, BitCount;
    assert Gap(|msg|) == 55 - |msg| % 64;
    assert msg == msg[..Whole(|msg|)] + msg[Whole(|msg|)..];
  }

  lemma PadTwoBlocks(msg: seq<Byte>)
    requires |msg| % 64 > 55
    ensures Pad(msg) == msg[..Whole(|msg|)]
                      + (msg[Whole(|msg|)..] + [0x80] + Zeros(63 - |msg| % 64))
                      + (Zeros(56) + LengthField(BitCount(|msg|)))
  {
    hide LengthField, BitCount;
    assert Gap(|msg|) == 63 - |msg| % 64 + 56;
    assert Zeros(Gap(|msg|)) == Zeros(63 - |msg| % 64) + Zeros(56);
    assert msg == msg[..Whole(|msg|)] + msg[Whole(|msg|)..];
  }

  /** The counter keeps the buffer position right even where it wraps. */
  lemma UsedSpace(n: nat)
    ensures BitCount(n) / 8 % 64 == n % 64
  {
    var q, r := n / 0x2000_0000_0000_0000, n % 0x2000_0000_0000_0000;
    assert 8 * n == q * 0x1_0000_0000_0000_0000 + 8 * r;
    DivUnique(8 * n, 0x1_0000_0000_0000_0000, q, 8 * r);
    DivUnique(n, 64, q * 0x80_0000_0000_0000 + r / 64, r % 64);
  }

  lemma BitCountAdds(m: nat, n: nat)
    ensures (BitCount(m) + 8 * n) % 0x1_0000_0000_0000_0000 == BitCount(m + n)
  {}

  // ---------- The context ----------

  /** A context has taken in msg: whole blocks in the state, the rest at the front of the buffer. */
  ghost predicate Holding(msg: seq<Byte>, state: seq<Word>, buffer: seq<Byte>, bitcount: Word64)
    requires |buffer| == 64
  {
    && bitcount == BitCount(|msg|)
    && state == Fold(msg[..Whole(|msg|)])
    && buffer[..|msg| % 64] == msg[Whole(|msg|)..]
  }

  /** More bytes that leave the buffer short of full. */
  lemma HoldMore(msg: seq<Byte>, state: seq<Word>, buffer: seq<Byte>, bitcount: Word64, data: seq<Byte>,
                 after: seq<Byte>)
    requires |buffer| == 64 && |after| == 64 && Holding(msg, state, buffer, bitcount)
    requires |msg| % 64 + |data| < 64 && after[..|msg| % 64 + |data|] == buffer[..|msg| % 64] + data
    ensures Holding(msg + data, state, after, (bitcount + 8 * |data|) % 0x1_0000_0000_0000_0000)
  {
    hide Fold, BitCount;
    var u, w := |msg| % 64, Whole(|msg|);
    BitCountAdds(|msg|, |data|);
    assert |msg + data| == w + (u + |data|);
    assert Whole(|msg + data|) == w;
    assert (msg + data)[..w] == msg[..w] && (msg + data)[w..] == msg[w..] + data;
  }

  /** Bytes that fill the buffer exactly, and the block that is then compressed. */
  lemma HoldBlock(msg: seq<Byte>, state: seq<Word>, buffer: seq<Byte>, bitcount: Word64, data: seq<Byte>,
                  after: seq<Byte>)
    requires |buffer| == 64 && |after| == 64 && Holding(msg, state, buffer, bitcount)
    requires |msg| % 64 + |data| == 64 && after == buffer[..|msg| % 64] + data
    ensures Holding(msg + data, Compress(state, Words(after)), after, (bitcount + 8 * |data|) % 0x1_0000_0000_0000_0000)
    ensures |msg + data| % 64 == 0
  {
    hide Fold, BitCount;
    var u, w := |msg| % 64, Whole(|msg|);
    BitCountAdds(|msg|, |data|);
    assert |msg + data| == w + 64;
    assert msg + data == msg[..w] + after;
    FoldAppend(msg[..w], after);
    assert (msg + data)[..w + 64] == msg + data;
  }

  class Context {
    const state: array<Word>
    const buffer: array<Byte>
    var bitcount: Word64

    ghost predicate Holds(msg: seq<Byte>)
      reads this, state, buffer
    {
      state.Length == 8 && buffer.Length == 64 && Holding(msg, state[..], buffer[..], bitcount)
    }

    constructor ()
      ensures fresh(state) && fresh(buffer) && Holds([])
    {
      state := new Word[8](i requires 0 <= i < 8 => INITIAL[i]);
      buffer := new Byte[64](_ => 0);
      bitcount := 0;
      new;
      assert state[..] == INITIAL;
    }

    /** A context that starts behind whole blocks already compressed into the given state. */
    constructor Resume(h: seq<Word>, ghost msg: seq<Byte>, count: Word64)
      requires |msg| % 64 == 0 && h == Fold(msg) && count == BitCount(|msg|)
      ensures fresh(state) && fresh(buffer) && Holds(msg)
    {
      hide Fold, BitCount;
      state := new Word[8](i requires 0 <= i < 8 => h[i]);
      buffer := new Byte[64](_ => 0);
      bitcount := count;
      new;
      assert state[..] == h && msg[..|msg|] == msg;
    }

    method Init()
      requires state.Length == 8 && buffer.Length == 64
      modifies this`bitcount, state, buffer
      ensures Holds([])
    {
      forall i | 0 <= i < 8 { state[i] := INITIAL[i]; }
      forall i | 0 <= i < 64 { buffer[i] := 0; }
      bitcount := 0;
      assert state[..] == INITIAL;
    }

    /** The buffer read as big-endian words and compressed into the state. */
    method CompressBuffer()
      requires state.Length == 8 && buffer.Length == 64
      modifies state
      ensures state[..] == Compress(old(state[..]), Words(buffer[..]))
    {
      hide Compress;
      var words := new Word[16](_ => 0);
      LoadWords(buffer, words, 16);
      assert words[..] == Words(buffer[..]);
      Transform(state, words, state);
      assert state[..8] == state[..];
    }

    method CopyIn(at: nat, data: seq<Byte>)
      requires buffer.Length == 64 && at + |data| <= 64
      modifies buffer
      ensures buffer[..at + |data|] == old(buffer[..at]) + data
      ensures buffer[at + |data|..] == old(buffer[at + |data|..])
    {
      forall i | 0 <= i < |data| { buffer[at + i] := data[i]; }
    }

    method Update(data: seq<Byte>, ghost msg: seq<Byte>)
      requires Holds(msg)
      modifies this, state, buffer
      ensures Holds(msg + data)
    {
      hide Holding, Fold, Compress, BitCount;
      if |data| == 0 {
        assert msg + data == msg;
        return;
      }
      UsedSpace(|msg|);
      assert bitcount == BitCount(|msg|) by { HoldingCount(msg, state[..], buffer[..], bitcount); }
      var used := bitcount / 8 % 64;
      var pos := 0;
      if used > 0 {
        var free := 64 - used;
        if |data| < free {
          Buffer(data, msg);
          return;
        }
        Block(data[..free], msg);
        pos := free;
      } else {
        assert msg + data[..0] == msg;
      }
      while |data| - pos >= 64
        invariant pos <= |data| && |msg + data[..pos]| % 64 == 0
        invariant Holds(msg + data[..pos])
      {
        Block(data[pos..pos + 64], msg + data[..pos]);
        assert msg + data[..pos] + data[pos..pos + 64] == msg + data[..pos + 64];
        pos := pos + 64;
      }
      assert msg + data[..pos] + data[pos..] == msg + data;
      if |data| - pos > 0 {
        Buffer(data[pos..], msg + data[..pos]);
      } else {
        assert data[..pos] == data;
      }
    }

    /** The branch that only stores. */
    method Buffer(data: seq<Byte>, ghost msg: seq<Byte>)
      requires Holds(msg) && |msg| % 64 + |data| < 64
      modifies this`bitcount, buffer
      ensures Holds(msg + data)
    {
      hide Holding, BitCount;
      HoldingCount(msg, state[..], buffer[..], bitcount);
      UsedSpace(|msg|);
      ghost var before, count := buffer[..], bitcount;
      CopyIn(bitcount / 8 % 64, data);
      bitcount := (bitcount + 8 * |data|) % 0x1_0000_0000_0000_0000;
      HoldMore(msg, state[..], before, count, data, buffer[..]);
    }

    /** The branch that completes a block. */
    method Block(data: seq<Byte>, ghost msg: seq<Byte>)
      requires Holds(msg) && |msg| % 64 + |data| == 64
      modifies this`bitcount, state, buffer
      ensures Holds(msg + data) && |msg + data| % 64 == 0
    {
      hide Holding, BitCount, Compress;
      HoldingCount(msg, state[..], buffer[..], bitcount);
      UsedSpace(|msg|);
      ghost var h, before, count := state[..], buffer[..], bitcount;
      CopyIn(bitcount / 8 % 64, data);
      bitcount := (bitcount + 8 * |data|) % 0x1_0000_0000_0000_0000;
      assert buffer[..64] == buffer[..];
      HoldBlock(msg, h, before, count, data, buffer[..]);
      CompressBuffer();
    }

    method Final(ghost msg: seq<Byte>) returns (digest: seq<Byte>)
      requires Holds(msg)
      modifies this, state, buffer
      ensures digest == HashOf(msg)
      ensures Cleared()
    {
      hide Holding, HashOf, Compress, BitCount;
      HoldingCount(msg, state[..], buffer[..], bitcount);
      UsedSpace(|msg|);
      ghost var h, before := state[..], buffer[..];
      var used := bitcount / 8 % 64;
      CopyIn(used, [0x80]);
      used := used + 1;
      if used > 56 {
        CopyIn(used, Zeros(64 - used));
        assert buffer[..64] == buffer[..];
        FinishTwo(msg, h, before, bitcount, buffer[..]);
        CompressBuffer();
        used := 0;
        CopyIn(0, Zeros(56));
        assert buffer[..56] == Zeros(56);
      } else {
        CopyIn(used, Zeros(56 - used));
        FinishOne(msg, h, before, bitcount, buffer[..56]);
      }
      LastBlock();
      digest := Bytes(state[..]);
      Clear();
    }

    /** The block whose last two words are the counter. */
    method LastBlock()
      requires state.Length == 8 && buffer.Length == 64
      modifies state
      ensures state[..] == Compress(old(state[..]), Words(buffer[..56] + LengthField(bitcount)))
    {
      hide Compress, Pack, LengthField;
      var words := new Word[16](_ => 0);
      LoadWords(buffer, words, 14);
      words[14] := bitcount / BASE;
      words[15] := bitcount % BASE;
      assert words[..14] == Words(buffer[..56]);
      LastWords(buffer[..56], bitcount, words[..]);
      Transform(state, words, state);
      assert state[..8] == state[..];
    }

    ghost predicate Cleared()
      reads this, state, buffer
    {
      && bitcount == 0
      && (forall i :: 0 <= i < state.Length ==> state[i] == 0)
      && (forall i :: 0 <= i < buffer.Length ==> buffer[i] == 0)
    }

    method Clear()
      modifies this`bitcount, state, buffer
      ensures Cleared()
    {
      forall i | 0 <= i < state.Length { state[i] := 0; }
      forall i | 0 <= i < buffer.Length { buffer[i] := 0; }
      bitcount := 0;
    }
  }

  /** The padding of the last block, when the length fits behind the message. */
  lemma FinishOne(msg: seq<Byte>, state: seq<Word>, buffer: seq<Byte>, bitcount: Word64, last: seq<Byte>)
    requires |buffer| == 64 && Holding(msg, state, buffer, bitcount) && |msg| % 64 <= 55
    requires last == buffer[..|msg| % 64] + [0x80] + Zeros(55 - |msg| % 64)
    ensures HashOf(msg) == Bytes(Compress(state, Words(last + LengthField(bitcount))))
  {
    hide HashOf, Fold, Compress, BitCount, LengthField, Bytes, Words;
    PadOneBlock(msg);
    HashIs(msg);
    FoldAppend(msg[..Whole(|msg|)], last + LengthField(bitcount));
  }

  /** The padding over two blocks, when it does not. */
  lemma FinishTwo(msg: seq<Byte>, state: seq<Word>, buffer: seq<Byte>, bitcount: Word64, last: seq<Byte>)
    requires |buffer| == 64 && Holding(msg, state, buffer, bitcount) && |msg| % 64 > 55
    requires last == buffer[..|msg| % 64] + [0x80] + Zeros(63 - |msg| % 64)
    ensures HashOf(msg) == Bytes(Compress(Compress(state, Words(last)), Words(Zeros(56) + LengthField(bitcount))))
  {
    hide HashOf, Fold, Compress, BitCount, LengthField, Bytes, Words;
    PadTwoBlocks(msg);
    HashIs(msg);
    FoldAppend(msg[..Whole(|msg|)], last);
    FoldAppend(msg[..Whole(|msg|)] + last, Zeros(56) + LengthField(bitcount));
  }

  /** Fourteen words from the buffer and the two of the counter spell the block that ends in the length field. */
  lemma LastWords(front: seq<Byte>, count: Word64, words: seq<Word>)
    requires |front| == 56 && |words| == 16 && words[..14] == Words(front)
    requires words[14] == count / BASE && words[15] == count % BASE
    ensures words == Words(front + LengthField(count))
  {
    hide Words, Bytes;
    var ends: seq<Word> := [count / BASE, count % BASE];
    WordsOfBytes(ends);
    WordsConcat(front, LengthField(count));
    assert words == words[..14] + ends;
  }

  lemma HoldingCount(msg: seq<Byte>, state: seq<Word>, buffer: seq<Byte>, bitcount: Word64)
    requires |buffer| == 64 && Holding(msg, state, buffer, bitcount)
    ensures bitcount == BitCount(|msg|)
  {}

  /** The first n words of a byte buffer, most significant byte first. */
  method LoadWords(buffer: array<Byte>, words: array<Word>, n: nat)
    requires buffer.Length == 64 && words.Length == 16 && n <= 16
    modifies words
    ensures forall i :: 0 <= i < n ==> words[i] == Words(buffer[..])[i]
    ensures forall i :: n <= i < 16 ==> words[i] == old(words[i])
  {
    hide Pack;
    for j := 0 to n
      invariant forall i :: 0 <= i < j ==> words[i] == Words(buffer[..])[i]
      invariant forall i :: j <= i < 16 ==> words[i] == old(words[i])
    {
      words[j] := Pack(buffer[4 * j], buffer[4 * j + 1], buffer[4 * j + 2], buffer[4 * j + 3]);
    }
  }

  method Raw(data: seq<Byte>) returns (digest: seq<Byte>)
    ensures digest == HashOf(data)
  {
    var ctx := new Context();
    ctx.Update(data, []);
    digest := ctx.Final([] + data);
    assert [] + data == data;
  }

  ghost function Concat(parts: seq<seq<Byte>>): seq<Byte>
  {
    if parts == [] then [] else Concat(parts[..|parts| - 1]) + parts[|parts| - 1]
  }

  /** However a message is cut into updates, the digest is that of the whole message. */
  method HashParts(parts: seq<seq<Byte>>) returns (digest: seq<Byte>)
    ensures digest == HashOf(Concat(parts))
  {
    hide HashOf, Holding;
    var ctx := new Context();
    assert Concat(parts[..0]) == [];
    for i := 0 to |parts|
      invariant fresh(ctx) && fresh(ctx.state) && fresh(ctx.buffer) && ctx.Holds(Concat(parts[..i]))
    {
      ctx.Update(parts[i], Concat(parts[..i]));
      assert parts[..i + 1][..i] == parts[..i];
    }
    assert parts[..|parts|] == parts;
    digest := ctx.Final(Concat(parts));
  }
}
