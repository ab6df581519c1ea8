/** Little-endian integers in byte strings. */
module ByteIo {
  import opened Limbs
  import opened Bits

  function Le32(v: Limb): (s: seq<Byte>)
    ensures |s| == 4
  {
    [ByteOf(v, 3), ByteOf(v, 2), ByteOf(v, 1), ByteOf(v, 0)]
  }

  function Le64(v: Word64): (s: seq<Byte>)
    ensures |s| == 8
  {
    Le32(v % BASE) + Le32(v / BASE)
  }

  function Read32(s: seq<Byte>, at: nat): Limb
    requires at + 4 <= |s|
  {
    Pack(s[at + 3], s[at + 2], s[at + 1], s[at])
  }

  function Read64(s: seq<Byte>, at: nat): Word64
    requires at + 8 <= |s|
  {
    Read32(s, at) + Read32(s, at + 4) as int * BASE
  }

  /** The first byte counts once, each later one 256 times as much as the one before it. */
  lemma LittleEndian(s: seq<Byte>, at: nat)
    requires at + 8 <= |s|
    ensures Read32(s, at) == s[at] + 0x100 * s[at + 1] as int + 0x1_0000 * s[at + 2] as int
      + 0x100_0000 * s[at + 3] as int
    ensures Read64(s, at) == Read32(s, at) + 0x1_0000_0000 * Read32(s, at + 4) as int
  {}

  lemma ReadBack32(s: seq<Byte>, at: nat, v: Limb)
    requires at + 4 <= |s| && s[at..at + 4] == Le32(v)
    ensures Read32(s, at) == v
  {
    hide Pack, ByteOf;
    var t := s[at..at + 4];
    assert s[at] == t[0] && s[at + 1] == t[1] && s[at + 2] == t[2] && s[at + 3] == t[3];
    PackBytes(v);
  }

  lemma WriteBack32(s: seq<Byte>, at: nat)
    requires at + 4 <= |s|
    ensures Le32(Read32(s, at)) == s[at..at + 4]
  {
    hide Pack, ByteOf;
    BytesOfPack(s[at + 3], s[at + 2], s[at + 1], s[at]);
  }

  lemma ReadBack64(s: seq<Byte>, at: nat, v: Word64)
    requires at + 8 <= |s| && s[at..at + 8] == Le64(v)
    ensures Read64(s, at) == v
  {
    hide Read32, Le32;
    assert s[at..at + 4] == s[at..at + 8][..4] && s[at + 4..at + 8] == s[at..at + 8][4..];
    ReadBack32(s, at, v % BASE);
    ReadBack32(s, at + 4, v / BASE);
  }

  lemma WriteBack64(s: seq<Byte>, at: nat)
    requires at + 8 <= |s|
    ensures Le64(Read64(s, at)) == s[at..at + 8]
  {
    hide Read32, Le32;
    WriteBack32(s, at);
    WriteBack32(s, at + 4);
    DivUnique(Read64(s, at), BASE, Read32(s, at + 4), Read32(s, at));
    assert s[at..at + 8] == s[at..at + 4] + s[at + 4..at + 8];
  }
}
