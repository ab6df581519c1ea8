/** HMAC-SHA256, streaming and with prepared pad digests. */
module Hmac {
  import opened Limbs
  import opened Bits
  import opened Sha256
  import opened Hashing

  // ---------- RFC 2104, section 2 ----------

  /** The key brought to block length: hashed when longer, then filled with zeros. */
  function BlockKey(key: seq<Byte>): (k: seq<Byte>)
    ensures |k| == 64
  {
    var k := if |key| > 64 then HashOf(key) else key;
    k + Zeros(64 - |k|)
  }

  function XorAll(s: seq<Byte>, c: Byte): (r: seq<Byte>)
    ensures |r| == |s|
  {
    seq(|s|, i requires 0 <= i < |s| => Xor8(s[i], c))
  }

  function InnerPad(key: seq<Byte>): (r: seq<Byte>)
    ensures |r| == 64
  {
    XorAll(BlockKey(key), 0x36)
  }

  function OuterPad(key: seq<Byte>): (r: seq<Byte>)
    ensures |r| == 64
  {
    XorAll(BlockKey(key), 0x5c)
  }

  function MacOf(key: seq<Byte>, msg: seq<Byte>): (mac: seq<Byte>)
    ensures |mac| == 32
  {
    HashOf(OuterPad(key) + HashOf(InnerPad(key) + msg))
  }

  // ---------- Streaming ----------

  class HmacContext {
    const oKeyPad: array<Byte>
    const ctx: Context

    ghost predicate Holds(key: seq<Byte>, msg: seq<Byte>)
      reads this, ctx, ctx.state, ctx.buffer, oKeyPad
    {
      && oKeyPad != ctx.buffer
      && oKeyPad[..] == OuterPad(key)
      && ctx.Holds(InnerPad(key) + msg)
    }

    constructor (key: seq<Byte>)
      ensures fresh(oKeyPad) && fresh(ctx) && fresh(ctx.state) && fresh(ctx.buffer)
      ensures Holds(key, [])
    {
      hide HashOf, Xor8, Holding, BlockKey;
      var pad := LoadKey(key);
      var outer := new Byte[64](i requires 0 <= i < 64 => Xor8(pad[i], 0x5c));
      oKeyPad := outer;
      ctx := new Context();
      new;
      assert oKeyPad[..] == OuterPad(key);
      var inner := XorAll(pad, 0x36);
      ctx.Update(inner, []);
      assert [] + inner == InnerPad(key) + [];
    }

    method Update(data: seq<Byte>, ghost key: seq<Byte>, ghost msg: seq<Byte>)
      requires Holds(key, msg)
      modifies ctx, ctx.state, ctx.buffer
      ensures Holds(key, msg + data)
    {
      hide OuterPad, InnerPad, HashOf;
      ctx.Update(data, InnerPad(key) + msg);
      assert InnerPad(key) + msg + data == InnerPad(key) + (msg + data);
    }

    method Final(ghost key: seq<Byte>, ghost msg: seq<Byte>) returns (mac: seq<Byte>)
      requires Holds(key, msg)
      modifies ctx, ctx.state, ctx.buffer, oKeyPad
      ensures mac == MacOf(key, msg)
      ensures ctx.Cleared() && forall i :: 0 <= i < oKeyPad.Length ==> oKeyPad[i] == 0
    {
      hide OuterPad, InnerPad, HashOf, Holding;
      var inner := ctx.Final(InnerPad(key) + msg);
      ctx.Init();
      ctx.Update(oKeyPad[..], []);
      assert [] + oKeyPad[..] == OuterPad(key);
      ctx.Update(inner, OuterPad(key));
      mac := ctx.Final(OuterPad(key) + inner);
      forall i | 0 <= i < oKeyPad.Length { oKeyPad[i] := 0; }
    }
  }

  method LoadKey(key: seq<Byte>) returns (pad: seq<Byte>)
    ensures pad == BlockKey(key)
  {
    hide HashOf;
    if |key| > 64 {
      var digest := Raw(key);
      pad := digest + Zeros(32);
    } else {
      pad := key + Zeros(64 - |key|);
    }
  }

  method HmacSha256(key: seq<Byte>, msg: seq<Byte>) returns (mac: seq<Byte>)
    ensures mac == MacOf(key, msg)
  {
    hide MacOf, Holding;
    var hctx := new HmacContext(key);
    hctx.Update(msg, key, []);
    assert [] + msg == msg;
    mac := hctx.Final(key, msg);
  }

  // ---------- Prepared digests ----------

  /** Xor-ing every byte is xor-ing every word with that byte four times. */
  lemma XorWords(s: seq<Byte>, c: Byte)
    requires |s| % 4 == 0
    ensures |Words(XorAll(s, c))| == |Words(s)|
    ensures forall i :: 0 <= i < |Words(s)| ==> Words(XorAll(s, c))[i] == Xor32(Words(s)[i], Pack(c, c, c, c))
  {
    hide Pack, Xor8, Xor32;
    forall i | 0 <= i < |Words(s)|
      ensures Words(XorAll(s, c))[i] == Xor32(Words(s)[i], Pack(c, c, c, c))
    {
      XorPacked(s[4 * i], s[4 * i + 1], s[4 * i + 2], s[4 * i + 3], c, c, c, c);
    }
  }

  method Prepare(key: seq<Byte>, opadDigest: array<Word>, ipadDigest: array<Word>)
    requires opadDigest.Length == 8 && ipadDigest.Length == 8 && opadDigest != ipadDigest
    modifies opadDigest, ipadDigest
    ensures opadDigest[..] == Fold(OuterPad(key)) && ipadDigest[..] == Fold(InnerPad(key))
  {
    hide HashOf, Compress, Fold, Words, BlockKey, Xor32;
    var pad := LoadKey(key);
    var iv := new Word[8](i requires 0 <= i < 8 => INITIAL[i]);
    assert iv[..] == INITIAL;
    var words := Words(pad);
    var keyPad := new Word[16](i requires 0 <= i < 16 => Xor32(words[i], 0x5c5c5c5c));
    PadWords(pad, 0x5c, 0x5c5c5c5c, keyPad[..]);
    Transform(iv, keyPad, opadDigest);
    FoldOne(OuterPad(key));
    forall i | 0 <= i < 16
      ensures Xor32(Xor32(keyPad[i], 0x5c5c5c5c), 0x36363636) == Xor32(words[i], 0x36363636)
    {
      PadSwap(words[i]);
    }
    forall i | 0 <= i < 16 { keyPad[i] := Xor32(Xor32(keyPad[i], 0x5c5c5c5c), 0x36363636); }
    PadWords(pad, 0x36, 0x36363636, keyPad[..]);
    assert iv[..] == INITIAL;
    Transform(iv, keyPad, ipadDigest);
    FoldOne(InnerPad(key));
    assert opadDigest[..8] == opadDigest[..] && ipadDigest[..8] == ipadDigest[..];
  }

  lemma PadSwap(w: Word)
    ensures Xor32(Xor32(w, 0x5c5c5c5c), 0x5c5c5c5c) == w
  {
    hide Xor;
    XorCancels(w, 0x5c5c5c5c);
  }

  lemma PadWords(pad: seq<Byte>, c: Byte, cccc: Word, keyPad: seq<Word>)
    requires |pad| == 64 && |keyPad| == 16 && cccc == Pack(c, c, c, c)
    requires forall i :: 0 <= i < 16 ==> keyPad[i] == Xor32(Words(pad)[i], cccc)
    ensures keyPad == Words(XorAll(pad, c))
  {
    hide Pack, Xor32, Words;
    XorWords(pad, c);
  }
}
