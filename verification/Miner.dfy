/** The nonce loops: two transforms from a midstate stand in for hashing the whole header. */
module Miner {
  import opened Limbs
  import opened Bits
  import opened ByteIo
  import opened Sha256
  import opened Hashing
  import opened Header
  import Compact
  import opened ArithUint256
  import Bytes32
  import Pow

  const TEMPLATE_REFRESH_MS: nat := 15000

  // ---------- The three blocks of a header ----------

  /** The first block is compressed; the other two are the rest of the header and the padding. */
  ghost predicate Prepared(h: Fields, midstate: seq<Word>, block2: seq<Word>, block3: seq<Word>)
  {
    && midstate == Fold(Encode(h)[..64])
    && block2 == Words(Encode(h)[64..]) + [0x8000_0000, 0]
    && block3 == LastBlock()
  }

  /** Fourteen zero words and the bit length of 120 bytes. */
  function LastBlock(): (s: seq<Word>)
    ensures |s| == 16
  {
    Words(Zeros(56)) + [0, 960]
  }

  lemma LastBlockIs(s: seq<Word>)
    requires |s| == 16 && s[15] == 960 && forall i :: 0 <= i < 15 ==> s[i] == 0
    ensures s == LastBlock()
  {}

  /** Two transforms from the midstate give the hash of the whole header. */
  lemma HeaderHash(h: Fields, midstate: seq<Word>, block2: seq<Word>, block3: seq<Word>)
    requires Prepared(h, midstate, block2, block3)
    ensures |midstate| == 8 && |block2| == 16 && |block3| == 16
    ensures HashOf(Encode(h)) == Bytes(Compress(Compress(midstate, block2), block3))
  {
    hide HashOf, Fold, Compress, Words, Bytes, Encode, LengthField;
    var s := Encode(h);
    var middle := s[64..] + [0x80] + Zeros(7);
    var last := Zeros(56) + LengthField(960);
    PadTwoBlocks(s);
    HashIs(s);
    assert BitCount(120) == 960 && Whole(120) == 64;
    FoldAppend(s[..64], middle);
    FoldAppend(s[..64] + middle, last);
    MiddleWords(s[64..]);
    LengthWords();
  }

  lemma MiddleWords(s: seq<Byte>)
    requires |s| == 56
    ensures Words(s + [0x80] + Zeros(7)) == Words(s) + [0x8000_0000, 0]
  {
    hide Words;
    var mark := [0x80] + Zeros(7);
    WordsConcat(s, mark);
    assert s + [0x80] + Zeros(7) == s + mark;
    MarkWords(mark);
  }

  lemma MarkWords(mark: seq<Byte>)
    requires mark == [0x80] + Zeros(7)
    ensures Words(mark) == [0x8000_0000, 0]
  {
    assert forall k :: 1 <= k < 8 ==> mark[k] == 0;
  }

  lemma LengthWords()
    ensures Words(Zeros(56) + LengthField(960)) == LastBlock()
  {
    hide Words, Bytes;
    WordsConcat(Zeros(56), LengthField(960));
    WordsOfBytes([0, 960]);
  }

  /** The words the loops work on. */
  class MiningBlocks {
    const midstate: array<Word>
    const block2: array<Word>
    const block3: array<Word>

    ghost predicate Shape()
    {
      && midstate.Length == 8 && block2.Length == 16 && block3.Length == 16
      && midstate != block2 && midstate != block3 && block2 != block3
    }

    /** The blocks are those of the given header, once its nonce word is set. */
    ghost predicate For(h: Fields)
      reads midstate, block2, block3
    {
      Shape() && Prepared(h, midstate[..], block2[..][13 := Swapped(h.nonce)], block3[..])
    }

    constructor ()
      ensures Shape() && fresh(midstate) && fresh(block2) && fresh(block3)
    {
      midstate, block2, block3 := new Word[8](_ => 0), new Word[16](_ => 0), new Word[16](_ => 0);
    }

    method Build(hdr: BlockHeader)
      requires Shape()
      modifies midstate, block2, block3
      ensures Shape() && For(hdr.h)
    {
      hide Fold, Words, Encode, LastBlock;
      var buf := new Byte[SERIALIZED_SIZE](_ => 0);
      var ok := hdr.SerializeTo(buf);
      assert buf[..] == Encode(hdr.h);
      assert buf[..64] == Encode(hdr.h)[..64] && buf[64..] == Encode(hdr.h)[64..];
      Midstate(buf, midstate);
      WordsAt(buf, 64, 14, block2);
      block2[14], block2[15] := 0x8000_0000, 0;
      assert block2[..] == block2[..14] + [0x8000_0000, 0];
      forall i | 0 <= i < 15 { block3[i] := 0; }
      block3[15] := SERIALIZED_SIZE * 8;
      LastBlockIs(block3[..]);
      SetNonceWord(hdr.h, hdr.h.nonce, midstate[..], block2[..], block3[..]);
    }

    /** Hashes the header with one nonce: sets the nonce word and runs the two transforms. */
    method Attempt(nonce: Word, ghost h: Fields) returns (hw: seq<Word>)
      requires For(h)
      modifies block2
      ensures For(h)
      ensures |hw| == 8 && Bytes(hw) == HashOf(Encode(h.(nonce := nonce)))
    {
      hide Prepared, Compress, Bytes, HashOf, Encode, Swapped;
      ghost var words: seq<Word> := block2[..][13 := Swapped(h.nonce)];
      SetNonceWord(h, nonce, midstate[..], words, block3[..]);
      block2[13] := Swapped(nonce);
      assert block2[..] == words[13 := Swapped(nonce)];
      assert block2[..][13 := Swapped(h.nonce)] == words;
      HeaderHash(h.(nonce := nonce), midstate[..], block2[..], block3[..]);
      var state, out := new Word[8](_ => 0), new Word[8](_ => 0);
      Transform(midstate, block2, state);
      assert state[..8] == state[..];
      Transform(state, block3, out);
      hw := out[..];
      assert out[..8] == out[..];
    }

    /** One nonce of the processor's loop: the top word decides first, the whole hash only when it must. */
    method Try(nonce: Word, targetTop: Word, target: Uint256, ghost tb: Bytes32.Digest, ghost h: Fields)
      returns (ok: bool)
      requires For(h) && target.Valid() && Pow.Usable(h.bits)
      requires target.Value() == Bytes32.Number(tb) == Compact.Decode(h.bits) && targetTop == Bytes32.Word(tb, 0)
      requires block2 != target.pn
      modifies block2
      ensures Shape() && For(h) && target.Valid() && target.Value() == old(target.Value())
      ensures ok <==> Solves(h.(nonce := nonce))
    {
      hide Prepared, HashOf, Encode, Bytes;
      var hw := Attempt(nonce, h);
      TopWordIs(hw, Bytes(hw));
      if hw[0] <= targetTop {
        ok := Meets(Bytes(hw), target);
      } else {
        TopWordSkips(Bytes(hw), tb);
        ok := false;
      }
    }
  }

  method Midstate(buf: array<Byte>, midstate: array<Word>)
    requires buf.Length == SERIALIZED_SIZE && midstate.Length == 8
    modifies midstate
    ensures midstate[..] == Fold(buf[..64])
  {
    hide Fold, Compress, Words;
    var block1 := new Word[16](_ => 0);
    WordsAt(buf, 0, 16, block1);
    assert block1[..16] == block1[..] && buf[0..64] == buf[..64];
    var iv := new Word[8](i requires 0 <= i < 8 => INITIAL[i]);
    assert iv[..] == INITIAL;
    Transform(iv, block1, midstate);
    FoldOne(buf[..64]);
    assert midstate[..8] == midstate[..];
  }

  /** n big-endian words read from an offset of the buffer. */
  method WordsAt(buf: array<Byte>, o: nat, n: nat, out: array<Word>)
    requires o + 4 * n <= buf.Length && n <= out.Length
    modifies out
    ensures out[..n] == Words(buf[o..o + 4 * n])
    ensures forall k :: n <= k < out.Length ==> out[k] == old(out[k])
  {
    hide Pack;
    for i := 0 to n
      invariant forall k :: 0 <= k < i ==>
        out[k] == Pack(buf[o + 4 * k], buf[o + 4 * k + 1], buf[o + 4 * k + 2], buf[o + 4 * k + 3])
      invariant forall k :: n <= k < out.Length ==> out[k] == old(out[k])
    {
      out[i] := Pack(buf[o + 4 * i], buf[o + 4 * i + 1], buf[o + 4 * i + 2], buf[o + 4 * i + 3]);
    }
  }

  // ---------- Changing the nonce ----------

  /** The word that the header's nonce bytes spell: the nonce with its bytes reversed. */
  function Swapped(nonce: Word): Word
  {
    Pack(ByteOf(nonce, 3), ByteOf(nonce, 2), ByteOf(nonce, 1), ByteOf(nonce, 0))
  }

  lemma SetNonceWord(h: Fields, nonce: Word, midstate: seq<Word>, block2: seq<Word>, block3: seq<Word>)
    requires Prepared(h, midstate, block2, block3)
    ensures |block2| == 16
    ensures Prepared(h.(nonce := nonce), midstate, block2[13 := Swapped(nonce)], block3)
  {
    hide Fold, LastBlock, Pack, ByteOf;
    var s, t := Encode(h), Encode(h.(nonce := nonce));
    SameBytes(h, nonce);
    assert s[..64] == t[..64];
    NonceWords(s[64..], t[64..], nonce);
  }

  /** Only the last four bytes depend on the nonce. */
  lemma SameBytes(h: Fields, nonce: Word)
    ensures Encode(h.(nonce := nonce))[..116] == Encode(h)[..116]
    ensures Encode(h.(nonce := nonce))[116..] == Le32(nonce)
  {
    hide Le32, Le64;
  }

  lemma NonceWords(s: seq<Byte>, t: seq<Byte>, nonce: Word)
    requires |s| == 56 && |t| == 56 && s[..52] == t[..52] && t[52..] == Le32(nonce)
    ensures Words(t) == Words(s)[13 := Swapped(nonce)]
  {
    hide Pack, ByteOf;
    assert forall k :: 0 <= k < 52 ==> s[k] == s[..52][k] && t[k] == t[..52][k];
    assert forall k :: 0 <= k < 4 ==> t[52..][k] == t[52 + k];
  }

  // ---------- The loops ----------

  /** A header whose hash meets a usable target. */
  ghost predicate Solves(h: Fields)
  {
    Pow.Usable(h.bits) && Bytes32.Number(HashOf(Encode(h))) <= Compact.Decode(h.bits)
  }

  /** The same header but for the time and the nonce. */
  ghost predicate SameTemplate(h: Fields, g: Fields)
  {
    g == h.(timestamp := g.timestamp, nonce := g.nonce)
  }

  /** A larger top word means a larger number, so such a hash cannot meet the target. */
  lemma TopWordSkips(hash: Bytes32.Digest, target: Bytes32.Digest)
    requires Bytes32.Word(hash, 0) > Bytes32.Word(target, 0)
    ensures Bytes32.Number(hash) > Bytes32.Number(target)
  {
    Bytes32.FourBytes(hash, 0);
    Bytes32.FourBytes(target, 0);
    Bytes32.StaysBelow(target, hash, 4, 32);
  }

  lemma TopWordIs(hw: seq<Word>, hash: Bytes32.Digest)
    requires |hw| == 8 && hash == Bytes(hw)
    ensures Bytes32.Word(hash, 0) == hw[0]
  {
    PackBytes(hw[0]);
  }

  /** The final comparison both loops make. */
  method Meets(hash: Bytes32.Digest, target: Uint256) returns (ok: bool)
    requires target.Valid()
    ensures ok <==> Bytes32.Number(hash) <= target.Value()
  {
    var a := Bytes32.FromBytes(hash);
    var c := a.CompareTo(target);
    ok := c <= 0;
  }

  /** What the outside world shows in one turn of the loop; the loop ends when it is told to stop. */
  datatype Tick = Tick(tipMoved: bool, millis: Word64, seconds: Word64)

  /** Elapsed time on a 64-bit clock. */
  function Elapsed(now: Word64, start: Word64): nat { (now as int - start) % 0x1_0000_0000_0000_0000 }

  /** The k-th nonce after n, coming round to zero. */
  function NonceAt(n: Word, k: nat): Word { (n as int + k) % BASE }

  lemma NextNonce(n: Word, k: nat)
    ensures NonceAt(n, 0) == n
    ensures NonceAt(n, k + 1) == if NonceAt(n, k) == 0xFFFF_FFFF then 0 else NonceAt(n, k) + 1
  {}

  /** Whether the template has gone stale: a minute has passed on a 64-bit clock. */
  predicate MinuteOld(timestamp: Word64, now: Word64) { now > (timestamp + 60) % 0x1_0000_0000_0000_0000 }

  /** Turn k is one of those that look up from hashing, and is told that the tip moved or the template is too old. */
  predicate Stops(env: seq<Tick>, startMs: Word64, k: nat)
    requires k < |env|
  {
    (k + 1) % 0x1_0000 == 0 && (env[k].tipMoved || Elapsed(env[k].millis, startMs) > TEMPLATE_REFRESH_MS)
  }

  /** The header's time before turn k: renewed when the nonces come round, and as turn k - 1 left it otherwise. */
  function TimeBefore(h: Fields, env: seq<Tick>, k: nat): Word64
    requires k <= |env|
    decreases k, 0
  {
    if k == 0 then h.timestamp
    else if NonceAt(h.nonce, k - 1) == 0xFFFF_FFFF then env[k - 1].seconds
    else TimeAt(h, env, k - 1)
  }

  /** The time hashed in turn k: renewed in every 65536th turn that finds it more than a minute old. */
  function TimeAt(h: Fields, env: seq<Tick>, k: nat): Word64
    requires k < |env|
    decreases k, 1
  {
    var before := TimeBefore(h, env, k);
    if (k + 1) % 0x1_0000 == 0 && MinuteOld(before, env[k].seconds) then env[k].seconds else before
  }

  /** The header tried in turn k. */
  function TriedIn(h: Fields, env: seq<Tick>, k: nat): Fields
    requires k < |env|
  {
    h.(timestamp := TimeAt(h, env, k), nonce := NonceAt(h.nonce, k))
  }

  /** The first n turns went by without a stop and without a solution. */
  ghost predicate InVain(h: Fields, startMs: Word64, env: seq<Tick>, n: nat)
  {
    n <= |env| && forall k :: 0 <= k < n ==> !Stops(env, startMs, k) && !Solves(TriedIn(h, env, k))
  }

  method RunNonceLoop(hdr: BlockHeader, startMs: Word64, env: seq<Tick>) returns (found: bool, turns: nat)
    modifies hdr
    ensures InVain(old(hdr.h), startMs, env, turns)
    ensures found ==>
      turns < |env| && !Stops(env, startMs, turns) && hdr.h == TriedIn(old(hdr.h), env, turns) && Solves(hdr.h)
    ensures !found && Pow.Usable(old(hdr.h).bits) ==> turns == |env| || Stops(env, startMs, turns)
    ensures !found && Pow.Usable(old(hdr.h).bits) ==>
      hdr.h == old(hdr.h).(timestamp := TimeBefore(old(hdr.h), env, turns))
    ensures !Pow.Usable(old(hdr.h).bits) ==> !found && hdr.h == old(hdr.h)
  {
    hide InVain, Solves, NonceAt, MinuteOld, Elapsed, MiningBlocks.For;
    hide MiningBlocks.Shape, Compact.Decode, Limbs.Val, Bytes32.Number;
    ghost var h0 := hdr.h;
    turns := 0;
    NothingYet(h0, startMs, env);
    NextNonce(h0.nonce, 0);
    var target, negative, overflow := Pow.TargetFrom(hdr.h.bits);
    var zero := target.EqualTo(0);
    if negative || overflow || zero { return false, turns; }
    var tb := Bytes32.ToBytes(target);
    var targetTop := Bytes32.Word(tb, 0);
    var nonce := hdr.h.nonce;
    var blocks := new MiningBlocks();
    blocks.Build(hdr);
    while turns < |env|
      invariant turns <= |env| && nonce == NonceAt(h0.nonce, turns) && InVain(h0, startMs, env, turns)
      invariant hdr.h == h0.(timestamp := TimeBefore(h0, env, turns)) && blocks.Shape() && blocks.For(hdr.h)
      invariant target.Valid() && target.Value() == Compact.Decode(h0.bits)
      modifies hdr, blocks.midstate, blocks.block2, blocks.block3
    {
      var tick := env[turns];
      if (turns + 1) % 0x1_0000 == 0 {
        if tick.tipMoved || Elapsed(tick.millis, startMs) > TEMPLATE_REFRESH_MS { return false, turns; }
        if MinuteOld(hdr.h.timestamp, tick.seconds) { Refresh(hdr, blocks, tick.seconds); }
      }
      assert hdr.h.(nonce := nonce) == TriedIn(h0, env, turns);
      found := blocks.Try(nonce, targetTop, target, tb, hdr.h);
      if found {
        hdr.SetNonce(nonce);
        return true, turns;
      }
      NextNonce(h0.nonce, turns);
      OneMoreInVain(h0, startMs, env, turns);
      if nonce == 0xFFFF_FFFF {
        Refresh(hdr, blocks, tick.seconds);
        nonce := 0;
      } else {
        nonce := nonce + 1;
      }
      turns := turns + 1;
    }
    found := false;
  }

  /** One turn of the loop on a graphics card; what the card answers is taken on no trust at all. */
  datatype GpuTick = GpuTick(tipMoved: bool, millis: Word64, seconds: Word64, failed: bool, hit: bool, nonce: Word)

  const BATCH: nat := 0x10_0000

  predicate GpuStops(tick: GpuTick, startMs: Word64)
  {
    tick.tipMoved || Elapsed(tick.millis, startMs) > TEMPLATE_REFRESH_MS || tick.failed
  }

  /** The time in the header and the nonce to go on from, after the given answers of the card came to nothing. */
  function GpuAfter(time: Word64, env: seq<GpuTick>): (r: (Word64, nat))
    ensures r.1 < BASE
  {
    if env == [] then (time, 0)
    else
      var tick, (t, base) := env[|env| - 1], GpuAfter(time, env[..|env| - 1]);
      var next := if tick.hit then tick.nonce as int + 1 else base + Batch(base);
      if next >= BASE then (tick.seconds, 0) else (t, next)
  }

  function Batch(base: nat): nat
    requires base < BASE
  {
    if base + BATCH > BASE then BASE - base else BATCH
  }

  /** The header whose nonce the card reports in turn k. */
  function Reported(h: Fields, env: seq<GpuTick>, k: nat): Fields
    requires k < |env|
  {
    h.(timestamp := GpuAfter(h.timestamp, env[..k]).0, nonce := env[k].nonce)
  }

  /** The first n turns ended nothing, and no nonce reported in them solves the block at the time then set. */
  ghost predicate GpuInVain(h: Fields, startMs: Word64, env: seq<GpuTick>, n: nat)
  {
    && n <= |env|
    && forall k :: 0 <= k < n ==> !GpuStops(env[k], startMs) && (env[k].hit ==> !Solves(Reported(h, env, k)))
  }

  lemma NothingReported(h: Fields, startMs: Word64, env: seq<GpuTick>)
    ensures GpuInVain(h, startMs, env, 0)
  {}

  lemma OneMoreGpu(h: Fields, startMs: Word64, env: seq<GpuTick>, n: nat)
    requires GpuInVain(h, startMs, env, n) && n < |env| && !GpuStops(env[n], startMs)
    requires env[n].hit ==> !Solves(Reported(h, env, n))
    ensures GpuInVain(h, startMs, env, n + 1)
  {
    hide Solves, GpuStops, Reported;
  }

  /**
   A reported nonce is accepted in the first turn in which it solves the block at the time then set; until then
   no turn ended the search. The search comes to nothing only when the turns ran out or one of them ends it.
   */
  method RunNonceLoopGpu(hdr: BlockHeader, startMs: Word64, env: seq<GpuTick>) returns (found: bool, turns: nat)
    modifies hdr
    ensures !Pow.Usable(old(hdr.h).bits) ==> !found && hdr.h == old(hdr.h)
    ensures GpuInVain(old(hdr.h), startMs, env, turns)
    ensures found ==> turns < |env| && !GpuStops(env[turns], startMs) && env[turns].hit
    ensures found ==> hdr.h == Reported(old(hdr.h), env, turns) && Solves(hdr.h)
    ensures !found && Pow.Usable(old(hdr.h).bits) ==>
      && (turns == |env| || GpuStops(env[turns], startMs))
      && hdr.h == old(hdr.h).(timestamp := GpuAfter(old(hdr.h).timestamp, env[..turns]).0)
  {
    hide Solves, Elapsed, HashOf, Encode, MiningBlocks.For, MiningBlocks.Shape, Pow.Usable;
    hide Compact.Decode, Limbs.Val, GpuInVain;
    ghost var h0 := hdr.h;
    turns := 0;
    NothingReported(h0, startMs, env);
    var target, negative, overflow := Pow.TargetFrom(hdr.h.bits);
    var zero := target.EqualTo(0);
    UsableIs(hdr.h.bits);
    if negative || overflow || zero { return false, turns; }
    var blocks := new MiningBlocks();
    blocks.Build(hdr);
    var nonceBase: nat := 0;
    while turns < |env|
      invariant turns <= |env| && blocks.Shape() && blocks.For(hdr.h)
      invariant GpuInVain(h0, startMs, env, turns)
      invariant hdr.h == h0.(timestamp := GpuAfter(h0.timestamp, env[..turns]).0)
      invariant nonceBase == GpuAfter(h0.timestamp, env[..turns]).1
      invariant target.Valid() && target.Value() == Compact.Decode(h0.bits)
      modifies hdr, blocks.midstate, blocks.block2, blocks.block3
    {
      var tick := env[turns];
      assert env[..turns + 1][..turns] == env[..turns];
      if tick.tipMoved || Elapsed(tick.millis, startMs) > TEMPLATE_REFRESH_MS { return false, turns; }
      var count := if nonceBase + BATCH > BASE then BASE - nonceBase else BATCH;
      if tick.failed { return false, turns; }
      if tick.hit {
        found := Recheck(hdr, blocks, tick.nonce, target);
        if found {
          hdr.SetNonce(tick.nonce);
          return true, turns;
        }
        nonceBase := tick.nonce as int + 1;
      } else {
        nonceBase := nonceBase + count;
      }
      OneMoreGpu(h0, startMs, env, turns);
      if nonceBase >= BASE {
        Refresh(hdr, blocks, tick.seconds);
        nonceBase := 0;
      }
      turns := turns + 1;
    }
    found := false;
  }

  lemma UsableIs(bits: Limb)
    ensures Pow.Usable(bits) <==> !Compact.IsNegative(bits) && !Compact.Overflows(bits) && Compact.Decode(bits) != 0
  {}

  /** The whole hash of a reported nonce, computed again and compared. */
  method Recheck(hdr: BlockHeader, blocks: MiningBlocks, nonce: Word, target: Uint256) returns (ok: bool)
    requires blocks.Shape() && blocks.For(hdr.h) && blocks.block2 != target.pn
    requires target.Valid() && target.Value() == Compact.Decode(hdr.h.bits) && Pow.Usable(hdr.h.bits)
    modifies blocks.block2
    ensures blocks.For(hdr.h) && target.Valid() && target.Value() == old(target.Value())
    ensures ok <==> Solves(hdr.h.(nonce := nonce))
  {
    hide HashOf, Encode, Prepared, Bytes;
    var hw := blocks.Attempt(nonce, hdr.h);
    ok := Meets(Bytes(hw), target);
  }

  /** A new timestamp, and the blocks made again. */
  method Refresh(hdr: BlockHeader, blocks: MiningBlocks, seconds: Word64)
    requires blocks.Shape()
    modifies hdr, blocks.midstate, blocks.block2, blocks.block3
    ensures hdr.h == old(hdr.h).(timestamp := seconds) && blocks.Shape() && blocks.For(hdr.h)
  {
    hide Prepared;
    hdr.SetTimestamp(seconds);
    blocks.Build(hdr);
  }

  lemma NothingYet(h: Fields, startMs: Word64, env: seq<Tick>)
    ensures InVain(h, startMs, env, 0)
  {}

  lemma OneMoreInVain(h: Fields, startMs: Word64, env: seq<Tick>, n: nat)
    requires InVain(h, startMs, env, n) && n < |env| && !Stops(env, startMs, n) && !Solves(TriedIn(h, env, n))
    ensures InVain(h, startMs, env, n + 1)
  {
    hide Solves, Stops, TriedIn;
  }
}
