/** Block headers: the 120-byte layout in both directions, and the cached hash. */
module Header {
  import opened Limbs
  import opened Bits
  import opened ByteIo
  import opened Common
  import opened Bytes32
  import opened Hashing

  const SERIALIZED_SIZE: nat := 120

  datatype Fields = Fields(
    version: Limb, prevBlockHash: Digest, merkleRoot: Digest, leafRoot: Digest,
    timestamp: Word64, height: Limb, bits: Limb, nonce: Limb)

  /** The layout of a header. */
  function Encode(h: Fields): (s: seq<Byte>)
    ensures |s| == SERIALIZED_SIZE
  {
    Le32(h.version) + h.prevBlockHash + h.merkleRoot + h.leafRoot + Le64(h.timestamp)
    + Le32(h.height) + Le32(h.bits) + Le32(h.nonce)
  }

  /** The header in the first 120 bytes. */
  function Decode(data: seq<Byte>): Fields
    requires |data| >= SERIALIZED_SIZE
  {
    Fields(Read32(data, 0), data[4..36], data[36..68], data[68..100],
           Read64(data, 100), Read32(data, 108), Read32(data, 112), Read32(data, 116))
  }

  class BlockHeader {
    var h: Fields
    var blockHash: Digest
    var hashCached: bool

    /** A cached hash is the hash of what the fields say now. */
    ghost predicate Valid()
      reads this
    {
      hashCached ==> blockHash == HashOf(Encode(h))
    }

    constructor (fields: Fields)
      ensures Valid() && h == fields && !hashCached
    {
      h, hashCached, blockHash := fields, false, Zeros(32);
    }

    method SetTimestamp(timestamp: Word64)
      modifies this
      ensures Valid() && h == old(h).(timestamp := timestamp)
    {
      h, hashCached := h.(timestamp := timestamp), false;
    }

    method SetNonce(nonce: Limb)
      modifies this
      ensures Valid() && h == old(h).(nonce := nonce)
    {
      h, hashCached := h.(nonce := nonce), false;
    }

    method GetHash() returns (hash: Digest)
      requires Valid()
      modifies this`blockHash, this`hashCached
      ensures Valid() && hash == HashOf(Encode(h))
    {
      hide HashOf, Encode;
      if !hashCached {
        var data := Serialize();
        blockHash := Raw(data);
        hashCached := true;
      }
      hash := blockHash;
    }

    method Serialize() returns (data: seq<Byte>)
      ensures data == Encode(h)
    {
      hide Le32, Le64;
      data := [];
      data := data + Le32(h.version);
      data := data + h.prevBlockHash;
      data := data + h.merkleRoot;
      data := data + h.leafRoot;
      data := data + Le64(h.timestamp);
      data := data + Le32(h.height);
      data := data + Le32(h.bits);
      data := data + Le32(h.nonce);
    }

    method SerializeTo(out: array<Byte>) returns (ok: bool)
      modifies out
      ensures ok <==> out.Length >= SERIALIZED_SIZE
      ensures ok ==> out[..SERIALIZED_SIZE] == Encode(h)
      ensures forall k :: SERIALIZED_SIZE <= k < out.Length ==> out[k] == old(out[k])
      ensures !ok ==> out[..] == old(out[..])
    {
      hide Le32, Le64;
      if out.Length < SERIALIZED_SIZE { return false; }
      var o := Put(out, 0, Le32(h.version));
      o := Put(out, o, h.prevBlockHash);
      o := Put(out, o, h.merkleRoot);
      o := Put(out, o, h.leafRoot);
      o := Put(out, o, Le64(h.timestamp));
      o := Put(out, o, Le32(h.height));
      o := Put(out, o, Le32(h.bits));
      o := Put(out, o, Le32(h.nonce));
      ok := o == SERIALIZED_SIZE;
    }

    static method Deserialize(data: seq<Byte>) returns (r: Result<Fields>)
      ensures r.Ok? <==> |data| >= SERIALIZED_SIZE
      ensures r.Ok? ==> r.value == Decode(data) && Encode(r.value) == data[..SERIALIZED_SIZE]
    {
      hide Read32, Read64;
      if |data| < SERIALIZED_SIZE { return Error; }
      DecodeEncode(data);
      return Ok(Decode(data));
    }
  }

  method Put(out: array<Byte>, o: nat, bytes: seq<Byte>) returns (next: nat)
    requires o + |bytes| <= out.Length
    modifies out
    ensures next == o + |bytes|
    ensures out[..next] == old(out[..o]) + bytes
    ensures forall k :: next <= k < out.Length ==> out[k] == old(out[k])
  {
    forall i | 0 <= i < |bytes| { out[o + i] := bytes[i]; }
    next := o + |bytes|;
  }

  /** Printing what was parsed gives the same bytes. */
  lemma DecodeEncode(data: seq<Byte>)
    requires |data| >= SERIALIZED_SIZE
    ensures Encode(Decode(data)) == data[..SERIALIZED_SIZE]
  {
    hide Read32, Read64, Le32, Le64;
    WriteBack32(data, 0);
    WriteBack64(data, 100);
    WriteBack32(data, 108);
    WriteBack32(data, 112);
    WriteBack32(data, 116);
  }

  /** Parsing what was printed gives the same header, whatever follows it. */
  lemma EncodeDecode(h: Fields, rest: seq<Byte>)
    ensures Decode(Encode(h) + rest) == h
  {
    hide Le32, Le64, Read32, Read64;
    var s := Encode(h) + rest;
    assert s[4..36] == h.prevBlockHash && s[36..68] == h.merkleRoot && s[68..100] == h.leafRoot;
    assert s[0..4] == Le32(h.version) && s[100..108] == Le64(h.timestamp);
    assert s[108..112] == Le32(h.height) && s[112..116] == Le32(h.bits) && s[116..120] == Le32(h.nonce);
    ReadBack32(s, 0, h.version);
    ReadBack64(s, 100, h.timestamp);
    ReadBack32(s, 108, h.height);
    ReadBack32(s, 112, h.bits);
    ReadBack32(s, 116, h.nonce);
  }
}
