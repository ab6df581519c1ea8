/** Base58 with a four-byte checksum, as addresses are written. */
module Base58Check {
  import opened Limbs
  import opened Radix
  import opened Base58
  import opened Hashing

  const MAX_DATA: nat := 128

  /** The first four bytes of the hash of the hash. */
  function Checksum(data: seq<Byte>): (c: seq<Byte>)
    ensures |c| == 4
  {
    HashOf(HashOf(data))[..4]
  }

  method HashTwice(data: seq<Byte>) returns (digest: seq<Byte>)
    ensures digest == HashOf(HashOf(data)) && |digest| == 32
  {
    hide HashOf;
    var once := Raw(data);
    digest := Raw(once);
  }

  /** The bytes end in the checksum of what is before it. */
  ghost predicate Checked(bin: seq<Byte>)
  {
    |bin| >= 4 && bin[|bin| - 4..] == Checksum(bin[..|bin| - 4])
  }

  /** The scan over leading zeros comes to look at byte k. */
  ghost predicate Reaches(bin: seq<Byte>, text: string, k: nat)
    requires k <= |bin|
  {
    k <= |text| && forall j :: 0 <= j < k ==> bin[j] == 0 && text[j] == '1'
  }

  /** All bytes are zero, their checksum included, and the text has as many leading ones. */
  ghost predicate Overruns(bin: seq<Byte>, text: string)
  {
    Checked(bin) && Lead(bin) == |bin| && LeadOnes(text) >= |bin|
  }

  /** The scan comes to look behind the last byte exactly in that case. */
  lemma OverrunExactly(bin: seq<Byte>, text: string)
    requires Checked(bin)
    ensures Reaches(bin, text, |bin|) <==> Overruns(bin, text)
  {
    hide HashOf, Lead, LeadOnes;
    LeadSplit(bin);
    LeadOnesSplit(text);
    var z, n := bin[..Lead(bin)], text[..LeadOnes(text)];
    if Overruns(bin, text) {
      assert forall j :: 0 <= j < |bin| ==> bin[j] == z[j] == 0 && text[j] == n[j] == '1';
    } else if LeadOnes(text) < |bin| && LeadOnes(text) < |text| {
      assert text[LeadOnes(text)] != '1';
    }
  }

  /** The first byte, or a negative code: too short, wrong checksum, or leading zeros that do not match the text. */
  method B58Check(bin: seq<Byte>, text: string) returns (r: int)
    requires !Overruns(bin, text)
    ensures r == if |bin| < 4 then -4 else if !Checked(bin) then -1
      else if Lead(bin) != LeadOnes(text) then -3 else bin[0]
  {
    hide HashOf, Lead, LeadOnes;
    if |bin| < 4 { return -4; }
    var hash := HashTwice(bin[..|bin| - 4]);
    if bin[|bin| - 4..] != hash[..4] { return -1; }
    LeadSplit(bin);
    LeadOnesSplit(text);
    ghost var zeros, ones := bin[..Lead(bin)], text[..LeadOnes(text)];
    var i := 0;
    while i < |text| && bin[i] == 0 && text[i] == '1'
      invariant i <= Lead(bin) && i <= LeadOnes(text) && i < |bin|
      invariant forall k :: 0 <= k < Lead(bin) ==> bin[k] == zeros[k] == 0
      invariant forall k :: 0 <= k < LeadOnes(text) ==> text[k] == ones[k] == '1'
    {
      i := i + 1;
    }
    if bin[i] == 0 || (i < |text| && text[i] == '1') { return -3; }
    return bin[0];
  }

  method EncodeCheck(data: seq<Byte>, strsize: nat) returns (size: nat, text: string)
    ensures size > 0 <==> |data| <= MAX_DATA && strsize > |Encode(data + Checksum(data))|
    ensures size > 0 ==> text == Encode(data + Checksum(data)) && size == |text| + 1
  {
    hide HashOf, Encode;
    if |data| > MAX_DATA { return 0, ""; }
    var hash := HashTwice(data);
    var buf: seq<Byte> := data + hash[..4];
    var ok;
    ok, text, size := B58Enc(buf, strsize);
    if !ok { return 0, ""; }
  }

  /** The bytes a text decodes to. */
  ghost function Decoded(text: string): (bin: seq<Byte>)
    requires IsText(text)
  {
    EncodeDecode(text);
    Decode(text)
  }

  /** A text of base 58 digits, of bytes that fit, ending in their checksum. */
  ghost predicate Acceptable(text: string, datalen: nat)
  {
    IsText(text) && datalen <= MAX_DATA && |Decode(text)| <= datalen + 4 && Checked(Decoded(text))
  }

  method DecodeCheck(text: string, datalen: nat) returns (n: nat, data: seq<Byte>)
    requires Acceptable(text, datalen) ==> LeadOnes(text) < |text|
    ensures n == |data|
    ensures if Acceptable(text, datalen) then data == Decoded(text)[..|Decoded(text)| - 4] else n == 0
  {
    hide HashOf, Decode, Lead, LeadOnes;
    if datalen > MAX_DATA { return 0, []; }
    var ok, d, res := B58ToBin(text, datalen + 4);
    if !ok { return 0, []; }
    var nd := d[datalen + 4 - res..];
    assert nd == Decoded(text);
    DecodedLead(text);
    if Acceptable(text, datalen) { OnesOnlyOverrun(text, datalen); }
    var r := B58Check(nd, text);
    if r < 0 { return 0, []; }
    return res - 4, nd[..res - 4];
  }

  /** Decoded bytes lead with as many zeros as the text has ones, and are all zeros only if the text is all ones. */
  lemma DecodedLead(text: string)
    requires IsText(text)
    ensures Lead(Decode(text)) == LeadOnes(text)
    ensures LeadOnes(text) < |text| <==> Lead(Decode(text)) < |Decode(text)|
    ensures text == "" ==> |Decode(text)| == 0
  {
    hide Lead, ToDigits, Num;
    var n, v := LeadOnes(text), TextNum(text);
    NumToDigits(v, 256);
    if v == 0 { NoDigits(256); }
    LeadOf(n, ToDigits(v, 256));
    LeadOnesSplit(text);
    assert forall k :: 0 <= k < n ==> text[k] == text[..n][k] == '1';
    if n < |text| {
      assert DigitOf(text[n]) > 0;
      LeadingZeros(Digits(text), n, 58);
      NumBound(Digits(text)[n..], 58);
    } else {
      NumOfZeros(Digits(text), 58);
    }
  }

  /** An acceptable text overruns exactly when it is ones only. */
  lemma OnesOnlyOverrun(text: string, datalen: nat)
    requires Acceptable(text, datalen)
    ensures Overruns(Decoded(text), text) <==> LeadOnes(text) == |text|
  {
    hide HashOf, Lead, LeadOnes, Decode;
    DecodedLead(text);
  }

  lemma NoDigits(b: nat)
    requires b > 1
    ensures ToDigits(0, b) == []
  {}

  /** Decoding an encoding gives the data back, for every buffer large enough. */
  method CheckRoundTrip(data: seq<Byte>, strsize: nat, datalen: nat) returns (n: nat, back: seq<Byte>)
    requires |data| <= datalen <= MAX_DATA && strsize > |Encode(data + Checksum(data))|
    requires Lead(data + Checksum(data)) < |data| + 4
    ensures n == |data| && back == data
  {
    hide HashOf, Lead, LeadOnes, Encode, Decode, Checksum;
    var all: seq<Byte> := data + Checksum(data);
    DecodeEncode(all);
    var size, text := EncodeCheck(data, strsize);
    DecodedLead(text);
    assert Decoded(text) == all && all[|all| - 4..] == Checksum(all[..|all| - 4]) by {
      assert all[..|all| - 4] == data;
    }
    n, back := DecodeCheck(text, datalen);
  }
}
