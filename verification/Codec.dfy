/** Transactions, blocks and undo records as bytes, and back. */
module Codec {
  import opened Limbs
  import opened ByteIo
  import opened Common
  import opened Bytes32
  import Header

  const MAX_TX_SIZE: nat := 100000
  const MAX_INPUTS: nat := 1000
  const MAX_OUTPUTS: nat := 1000
  const MAX_SCRIPT_SIZE: nat := 10000
  const MAX_TRANSACTIONS: nat := 10000

  // ---------- Reading at an offset ----------

  /** What a reader gives: the value and the offset behind it. */
  datatype Read<T> = Read(value: T, next: nat) | Fail

  /** The bytes stand in the data at an offset. */
  ghost predicate At(data: seq<Byte>, o: nat, bytes: seq<Byte>)
  {
    o + |bytes| <= |data| && data[o..o + |bytes|] == bytes
  }

  lemma AtSplit(data: seq<Byte>, o: nat, a: seq<Byte>, b: seq<Byte>)
    requires At(data, o, a + b)
    ensures At(data, o, a) && At(data, o + |a|, b)
  {
    var s := data[o..o + |a + b|];
    assert forall k {:trigger a[k]} :: 0 <= k < |a| ==> data[o + k] == s[k] == a[k];
    assert forall k {:trigger b[k]} :: 0 <= k < |b| ==> data[o + |a| + k] == s[|a| + k] == b[k];
  }

  ghost function EncodeAll<T>(encode: T -> seq<Byte>, xs: seq<T>): seq<Byte>
  {
    if xs == [] then [] else encode(xs[0]) + EncodeAll(encode, xs[1..])
  }

  /** n items in a row, failing as soon as one fails. */
  function ReadAll<T>(read: (seq<Byte>, nat) -> Read<T>, data: seq<Byte>, o: nat, n: nat): Read<seq<T>>
    decreases n
  {
    if n == 0 then Read([], o)
    else
      match read(data, o)
      case Fail => Fail
      case Read(x, o1) =>
        match ReadAll(read, data, o1, n - 1)
        case Fail => Fail
        case Read(xs, o2) => Read([x] + xs, o2)
  }

  /** Every printed item that is fit to be read comes back, and any other is refused. */
  ghost predicate Faithful<T(!new)>(encode: T -> seq<Byte>, read: (seq<Byte>, nat) -> Read<T>, fit: T -> bool,
                                    data: seq<Byte>, xs: seq<T>)
  {
    forall i, k: nat :: 0 <= i < |xs| && At(data, k, encode(xs[i])) ==>
      read(data, k) == if fit(xs[i]) then Read(xs[i], k + |encode(xs[i])|) else Fail
  }

  predicate AllFit<T>(fit: T -> bool, xs: seq<T>) { forall i :: 0 <= i < |xs| ==> fit(xs[i]) }

  /** A printed list comes back exactly when all of its items are fit to be read. */
  lemma {:induction false} AllBack<T(!new)>(encode: T -> seq<Byte>, read: (seq<Byte>, nat) -> Read<T>, fit: T -> bool,
                                            data: seq<Byte>, o: nat, xs: seq<T>)
    requires At(data, o, EncodeAll(encode, xs)) && Faithful(encode, read, fit, data, xs)
    ensures ReadAll(read, data, o, |xs|) == if AllFit(fit, xs) then Read(xs, o + |EncodeAll(encode, xs)|) else Fail
    decreases |xs|
  {
    hide Faithful, AllFit;
    if xs == [] {
      FitNone(fit);
    } else {
      AtSplit(data, o, encode(xs[0]), EncodeAll(encode, xs[1..]));
      FaithfulHead(encode, read, fit, data, o, xs);
      FaithfulTail(encode, read, fit, data, xs);
      AllBack(encode, read, fit, data, o + |encode(xs[0])|, xs[1..]);
      FitTail(fit, xs);
      assert [xs[0]] + xs[1..] == xs;
    }
  }

  lemma FaithfulHead<T(!new)>(encode: T -> seq<Byte>, read: (seq<Byte>, nat) -> Read<T>, fit: T -> bool,
                              data: seq<Byte>, o: nat, xs: seq<T>)
    requires xs != [] && Faithful(encode, read, fit, data, xs) && At(data, o, encode(xs[0]))
    ensures read(data, o) == if fit(xs[0]) then Read(xs[0], o + |encode(xs[0])|) else Fail
  {}

  lemma FitNone<T>(fit: T -> bool)
    ensures AllFit(fit, [])
  {}

  lemma FaithfulTail<T(!new)>(encode: T -> seq<Byte>, read: (seq<Byte>, nat) -> Read<T>, fit: T -> bool,
                              data: seq<Byte>, xs: seq<T>)
    requires xs != [] && Faithful(encode, read, fit, data, xs)
    ensures Faithful(encode, read, fit, data, xs[1..])
  {
    forall i, k: nat | 0 <= i < |xs[1..]| && At(data, k, encode(xs[1..][i]))
      ensures read(data, k) == if fit(xs[1..][i]) then Read(xs[1..][i], k + |encode(xs[1..][i])|) else Fail
    {
      assert xs[1..][i] == xs[i + 1];
    }
  }

  lemma FitTail<T>(fit: T -> bool, xs: seq<T>)
    requires xs != []
    ensures AllFit(fit, xs) <==> fit(xs[0]) && AllFit(fit, xs[1..])
  {
    if fit(xs[0]) && AllFit(fit, xs[1..]) {
      assert forall i :: 0 < i < |xs| ==> xs[i] == xs[1..][i - 1];
    }
  }

  /**
   What was read between two offsets prints to no more bytes than were read, and to the same bytes when to as
   many.
   */
  ghost predicate Prints(data: seq<Byte>, o: nat, next: nat, bytes: seq<Byte>)
  {
    o + |bytes| <= next <= |data| && (next == o + |bytes| ==> data[o..next] == bytes)
  }

  lemma PrintsBoth(data: seq<Byte>, o: nat, mid: nat, next: nat, a: seq<Byte>, b: seq<Byte>)
    requires Prints(data, o, mid, a) && Prints(data, mid, next, b)
    ensures Prints(data, o, next, a + b)
  {
    if next == o + |a + b| { assert data[o..next] == data[o..mid] + data[mid..next]; }
  }

  ghost predicate AllPrint<T(!new)>(encode: T -> seq<Byte>, read: (seq<Byte>, nat) -> Read<T>, data: seq<Byte>)
  {
    forall o: nat :: read(data, o).Read? ==> Prints(data, o, read(data, o).next, encode(read(data, o).value))
  }

  lemma {:induction false} ListPrints<T(!new)>(encode: T -> seq<Byte>, read: (seq<Byte>, nat) -> Read<T>,
                                               data: seq<Byte>, o: nat, n: nat)
    requires o <= |data| && AllPrint(encode, read, data) && ReadAll(read, data, o, n).Read?
    ensures var r := ReadAll(read, data, o, n); |r.value| == n && Prints(data, o, r.next, EncodeAll(encode, r.value))
    decreases n
  {
    if n > 0 {
      var first := read(data, o);
      assert Prints(data, o, first.next, encode(first.value));
      ListPrints(encode, read, data, first.next, n - 1);
      var rest := ReadAll(read, data, first.next, n - 1);
      PrintsBoth(data, o, first.next, rest.next, encode(first.value), EncodeAll(encode, rest.value));
      assert ([first.value] + rest.value)[1..] == rest.value;
    }
  }

  /** n items in a row, each of which meets a test where it is read. */
  ghost predicate EachRead<T(!new)>(read: (seq<Byte>, nat) -> Read<T>, test: (seq<Byte>, nat) -> bool,
                                    data: seq<Byte>, o: nat, n: nat)
    decreases n
  {
    n == 0 || (test(data, o) && read(data, o).Read? && EachRead(read, test, data, read(data, o).next, n - 1))
  }

  /** An item prints to as many bytes as it was read from exactly when it meets the test. */
  ghost predicate Tight<T(!new)>(encode: T -> seq<Byte>, read: (seq<Byte>, nat) -> Read<T>,
                                 test: (seq<Byte>, nat) -> bool, data: seq<Byte>)
  {
    forall o: nat :: read(data, o).Read? ==>
      (read(data, o).next == o + |encode(read(data, o).value)| <==> test(data, o))
  }

  lemma {:induction false} ListTight<T(!new)>(encode: T -> seq<Byte>, read: (seq<Byte>, nat) -> Read<T>,
                                              test: (seq<Byte>, nat) -> bool,
                                              data: seq<Byte>, o: nat, n: nat)
    requires o <= |data| && AllPrint(encode, read, data)
    requires Tight(encode, read, test, data) && ReadAll(read, data, o, n).Read?
    ensures var r := ReadAll(read, data, o, n);
            r.next == o + |EncodeAll(encode, r.value)| <==> EachRead(read, test, data, o, n)
    decreases n
  {
    if n > 0 {
      var first := read(data, o);
      assert Prints(data, o, first.next, encode(first.value));
      ListTight(encode, read, test, data, first.next, n - 1);
      ListPrints(encode, read, data, first.next, n - 1);
      var rest := ReadAll(read, data, first.next, n - 1);
      assert ([first.value] + rest.value)[1..] == rest.value;
    }
  }

  ghost function SizeAll<T>(size: T -> nat, xs: seq<T>): nat
  {
    if xs == [] then 0 else size(xs[0]) + SizeAll(size, xs[1..])
  }

  lemma {:induction false} SizeOfAll<T>(encode: T -> seq<Byte>, size: T -> nat, xs: seq<T>)
    requires forall i :: 0 <= i < |xs| ==> |encode(xs[i])| == size(xs[i])
    ensures |EncodeAll(encode, xs)| == SizeAll(size, xs)
  {
    if xs != [] { SizeOfAll(encode, size, xs[1..]); }
  }

  method WriteAll<T>(encode: T -> seq<Byte>, xs: seq<T>, out: seq<Byte>) returns (data: seq<Byte>)
    ensures data == out + EncodeAll(encode, xs)
  {
    data := out;
    for i := 0 to |xs|
      invariant data + EncodeAll(encode, xs[i..]) == out + EncodeAll(encode, xs)
    {
      assert xs[i..][1..] == xs[i + 1..];
      data := data + encode(xs[i]);
    }
    assert xs[|xs|..] == [];
  }

  function Prepended<T>(xs: seq<T>, r: Read<seq<T>>): Read<seq<T>>
  {
    if r.Fail? then Fail else Read(xs + r.value, r.next)
  }

  lemma PrependedAgain<T>(xs: seq<T>, x: T, r: Read<seq<T>>)
    ensures Prepended(xs, Prepended([x], r)) == Prepended(xs + [x], r)
  {
    if r.Read? { assert xs + ([x] + r.value) == xs + [x] + r.value; }
  }

  lemma PrependedEnds<T>(xs: seq<T>, o: nat, r: Read<seq<T>>)
    ensures Prepended([], r) == r && Prepended(xs, Read([], o)) == Read(xs, o)
  {
    if r.Read? { assert [] + r.value == r.value; }
    assert xs + [] == xs;
  }

  method ReadList<T>(read: (seq<Byte>, nat) -> Read<T>, data: seq<Byte>, o: nat, n: nat) returns (r: Read<seq<T>>)
    ensures r == ReadAll(read, data, o, n)
  {
    var xs: seq<T>, at := [], o;
    PrependedEnds(xs, o, ReadAll(read, data, o, n));
    for i := 0 to n
      invariant ReadAll(read, data, o, n) == Prepended(xs, ReadAll(read, data, at, n - i))
    {
      match read(data, at)
      case Fail => return Fail;
      case Read(x, next) =>
        PrependedAgain(xs, x, ReadAll(read, data, next, n - i - 1));
        xs, at := xs + [x], next;
    }
    PrependedEnds(xs, at, Read(xs, at));
    return Read(xs, at);
  }

  // ---------- Compact sizes ----------

  function EncodeCompact(v: Word64): seq<Byte>
  {
    if v < 253 then [v]
    else if v <= 0xffff then [253, v % 0x100, v / 0x100]
    else if v <= 0xffff_ffff then [254] + Le32(v)
    else [255] + Le64(v)
  }

  function CompactLen(v: Word64): nat
  {
    if v < 253 then 1 else if v <= 0xffff then 3 else if v <= 0xffff_ffff then 5 else 9
  }

  function ReadCompact(data: seq<Byte>, o: nat): Read<Word64>
  {
    if o + 1 > |data| then Fail
    else if data[o] < 253 then Read(data[o], o + 1)
    else if data[o] == 253 then
      if o + 3 > |data| then Fail else Read(data[o + 1] + data[o + 2] as int * 0x100, o + 3)
    else if data[o] == 254 then
      if o + 5 > |data| then Fail else Read(Read32(data, o + 1), o + 5)
    else
      if o + 9 > |data| then Fail else Read(Read64(data, o + 1), o + 9)
  }

  lemma CompactBack(data: seq<Byte>, o: nat, v: Word64)
    requires At(data, o, EncodeCompact(v))
    ensures |EncodeCompact(v)| == CompactLen(v) && ReadCompact(data, o) == Read(v, o + CompactLen(v))
  {
    hide Read32, Read64, Le32, Le64;
    var s := EncodeCompact(v);
    assert data[o] == data[o..o + |s|][0];
    if 253 <= v <= 0xffff {
      assert data[o + 1] == data[o..o + |s|][1] && data[o + 2] == data[o..o + |s|][2];
    } else if 0xffff < v <= 0xffff_ffff {
      AtSplit(data, o, [254], Le32(v));
      ReadBack32(data, o + 1, v);
    } else if v > 0xffff_ffff {
      AtSplit(data, o, [255], Le64(v));
      ReadBack64(data, o + 1, v);
    }
  }

  /**
   Longer forms of a size are accepted too; the bytes are those the writer would use exactly when the form is
   shortest.
   */
  lemma CompactShortest(data: seq<Byte>, o: nat)
    requires ReadCompact(data, o).Read?
    ensures var r := ReadCompact(data, o);
            && o + CompactLen(r.value) <= r.next <= |data|
            && (r.next == o + CompactLen(r.value) <==> data[o..r.next] == EncodeCompact(r.value))
  {
    hide Read32, Read64, Le32, Le64;
    var r := ReadCompact(data, o);
    if data[o] == 254 {
      WriteBack32(data, o + 1);
      assert data[o..o + 5] == [data[o]] + data[o + 1..o + 5];
    } else if data[o] == 255 {
      WriteBack64(data, o + 1);
      assert data[o..o + 9] == [data[o]] + data[o + 1..o + 9];
    }
  }

  // ---------- Inputs and outputs ----------

  type Signature = b: seq<Byte> | |b| == 64 witness seq(64, _ => 0)

  datatype TxInput = TxInput(
    prevTxHash: Digest, outputIndex: Limb, pubkey: Digest, signature: Signature, kps: Digest, noiseProof: seq<Byte>)

  function InputBody(i: TxInput): (s: seq<Byte>)
    ensures |s| == 164
  {
    i.prevTxHash + Le32(i.outputIndex) + i.pubkey + i.signature + i.kps
  }

  function EncodeInput(i: TxInput, withProof: bool): seq<Byte>
  {
    InputBody(i) + if withProof then Le32(|i.noiseProof| % BASE) + i.noiseProof else []
  }

  function InputSize(i: TxInput, withProof: bool): nat
  {
    164 + if withProof then 4 + |i.noiseProof| else 0
  }

  function ReadInput(data: seq<Byte>, o: nat): Read<TxInput>
  {
    if o + 168 > |data| then Fail
    else
      var proofLen := Read32(data, o + 164);
      if proofLen > MAX_TX_SIZE || o + 168 + proofLen > |data| then Fail
      else
        Read(TxInput(data[o..o + 32], Read32(data, o + 32), data[o + 36..o + 68], data[o + 68..o + 132],
                     data[o + 132..o + 164], data[o + 168..o + 168 + proofLen]), o + 168 + proofLen)
  }

  /** An input reads back to itself exactly when its proof is within the limit. */
  lemma InputBack(data: seq<Byte>, o: nat, i: TxInput)
    requires At(data, o, EncodeInput(i, true)) && |i.noiseProof| < BASE
    ensures |EncodeInput(i, true)| == InputSize(i, true)
    ensures ReadInput(data, o) == if |i.noiseProof| <= MAX_TX_SIZE then Read(i, o + InputSize(i, true)) else Fail
  {
    hide Read32, Le32;
    var tail := Le32(|i.noiseProof|) + i.noiseProof;
    AtSplit(data, o, InputBody(i), tail);
    AtSplit(data, o + 164, Le32(|i.noiseProof|), i.noiseProof);
    ReadBack32(data, o + 164, |i.noiseProof|);
    BodyBack(data, o, i);
  }

  lemma InputPrints(data: seq<Byte>, o: nat)
    requires ReadInput(data, o).Read?
    ensures var r := ReadInput(data, o); Prints(data, o, r.next, EncodeInput(r.value, true))
  {
    hide Read32, Le32;
    var r := ReadInput(data, o);
    WriteBack32(data, o + 32);
    WriteBack32(data, o + 164);
    BodyPrints(data, o, r.value);
    CutAt(data, o, o + 164, r.next);
    CutAt(data, o + 164, o + 168, r.next);
  }

  lemma BodyPrints(data: seq<Byte>, o: nat, i: TxInput)
    requires o + 164 <= |data| && i.prevTxHash == data[o..o + 32] && Le32(i.outputIndex) == data[o + 32..o + 36]
    requires i.pubkey == data[o + 36..o + 68] && i.signature == data[o + 68..o + 132] && i.kps == data[o + 132..o + 164]
    ensures InputBody(i) == data[o..o + 164]
  {
    hide Le32;
    assert data[o..o + 68] == data[o..o + 32] + data[o + 32..o + 36] + data[o + 36..o + 68];
    assert data[o..o + 132] == data[o..o + 68] + data[o + 68..o + 132];
    assert data[o..o + 164] == data[o..o + 132] + data[o + 132..o + 164];
  }

  lemma BodyBack(data: seq<Byte>, o: nat, i: TxInput)
    requires At(data, o, InputBody(i))
    ensures data[o..o + 32] == i.prevTxHash && Read32(data, o + 32) == i.outputIndex && data[o + 36..o + 68] == i.pubkey
    ensures data[o + 68..o + 132] == i.signature && data[o + 132..o + 164] == i.kps
  {
    hide Read32, Le32;
    AtSplit(data, o, i.prevTxHash + Le32(i.outputIndex) + i.pubkey + i.signature, i.kps);
    AtSplit(data, o, i.prevTxHash + Le32(i.outputIndex) + i.pubkey, i.signature);
    AtSplit(data, o, i.prevTxHash + Le32(i.outputIndex), i.pubkey);
    AtSplit(data, o, i.prevTxHash, Le32(i.outputIndex));
    ReadBack32(data, o + 32, i.outputIndex);
  }

  datatype TxOutput = TxOutput(value: Int64, script: seq<Byte>)

  function EncodeOutput(t: TxOutput): seq<Byte>
  {
    Le64(Unsigned(t.value)) + EncodeCompact(|t.script| % 0x1_0000_0000_0000_0000) + t.script
  }

  function OutputSize(t: TxOutput): nat
  {
    8 + CompactLen(|t.script| % 0x1_0000_0000_0000_0000) + |t.script|
  }

  function ReadOutput(data: seq<Byte>, o: nat): Read<TxOutput>
  {
    if o + 8 > |data| || Signed(Read64(data, o)) < 0 then Fail
    else
      match ReadCompact(data, o + 8)
      case Fail => Fail
      case Read(len, p) =>
        if len > MAX_SCRIPT_SIZE || p + len > |data| then Fail
        else Read(TxOutput(Signed(Read64(data, o)), data[p..p + len]), p + len)
  }

  /** An output reads back to itself exactly when its value is not negative and its script within the limit. */
  lemma OutputBack(data: seq<Byte>, o: nat, t: TxOutput)
    requires At(data, o, EncodeOutput(t)) && |t.script| < 0x1_0000_0000_0000_0000
    ensures |EncodeOutput(t)| == OutputSize(t)
    ensures ReadOutput(data, o)
      == if t.value >= 0 && |t.script| <= MAX_SCRIPT_SIZE then Read(t, o + OutputSize(t)) else Fail
  {
    hide Read64, Le64, EncodeCompact, ReadCompact, CompactLen;
    var v, n := Unsigned(t.value), |t.script| % 0x1_0000_0000_0000_0000;
    AtSplit(data, o, Le64(v) + EncodeCompact(n), t.script);
    AtSplit(data, o, Le64(v), EncodeCompact(n));
    ReadBack64(data, o, v);
    CompactBack(data, o + 8, n);
  }

  lemma OutputPrints(data: seq<Byte>, o: nat)
    requires ReadOutput(data, o).Read?
    ensures var r := ReadOutput(data, o); Prints(data, o, r.next, EncodeOutput(r.value))
  {
    hide Read64, Le64, EncodeCompact, ReadCompact, CompactLen;
    var r, c := ReadOutput(data, o), ReadCompact(data, o + 8);
    WriteBack64(data, o);
    CompactPrints(data, o + 8);
    PrintsBoth(data, o, o + 8, c.next, data[o..o + 8], EncodeCompact(c.value));
    PrintsBoth(data, o, c.next, r.next, data[o..o + 8] + EncodeCompact(c.value), r.value.script);
  }

  lemma CompactPrints(data: seq<Byte>, o: nat)
    requires ReadCompact(data, o).Read?
    ensures var r := ReadCompact(data, o); Prints(data, o, r.next, EncodeCompact(r.value))
  {
    CompactShortest(data, o);
  }

  // ---------- Transactions ----------

  datatype Transaction = Transaction(version: Limb, inputs: seq<TxInput>, outputs: seq<TxOutput>, locktime: Word64)

  function WithProof(i: TxInput): seq<Byte> { EncodeInput(i, true) }
  function WithoutProof(i: TxInput): seq<Byte> { EncodeInput(i, false) }
  predicate FitInput(i: TxInput) { |i.noiseProof| <= MAX_TX_SIZE }
  predicate FitOutput(t: TxOutput) { t.value >= 0 && |t.script| <= MAX_SCRIPT_SIZE }

  /** The bytes after the version: counts, lists and lock time. */
  ghost function EncodeTx(tx: Transaction, withProof: bool): seq<Byte>
  {
    Le32(tx.version) + (Le32(|tx.inputs| % BASE) + (EncodeAll(if withProof then WithProof else WithoutProof, tx.inputs)
    + (Le32(|tx.outputs| % BASE) + (EncodeAll(EncodeOutput, tx.outputs) + Le64(tx.locktime)))))
  }

  ghost function TxSize(tx: Transaction, withProof: bool): nat
  {
    4 + 4 + SizeAll((i: TxInput) => InputSize(i, withProof), tx.inputs) + 4 + SizeAll(OutputSize, tx.outputs) + 8
  }

  /** Lengths that the counters of the format can hold. */
  ghost predicate Countable(tx: Transaction)
  {
    && |tx.inputs| < BASE && |tx.outputs| < BASE
    && (forall i :: 0 <= i < |tx.inputs| ==> |tx.inputs[i].noiseProof| < BASE)
    && (forall i :: 0 <= i < |tx.outputs| ==> |tx.outputs[i].script| < 0x1_0000_0000_0000_0000)
  }

  ghost predicate WithinLimits(tx: Transaction)
  {
    |tx.inputs| <= MAX_INPUTS && |tx.outputs| <= MAX_OUTPUTS
      && AllFit(FitInput, tx.inputs) && AllFit(FitOutput, tx.outputs)
  }

  function ReadTx(data: seq<Byte>): Result<Transaction>
  {
    if |data| < 20 || Read32(data, 4) > MAX_INPUTS then Error
    else
      match ReadAll(ReadInput, data, 8, Read32(data, 4))
      case Fail => Error
      case Read(inputs, o) =>
        if o + 4 > |data| || Read32(data, o) > MAX_OUTPUTS then Error
        else
          match ReadAll(ReadOutput, data, o + 4, Read32(data, o))
          case Fail => Error
          case Read(outputs, p) =>
            if p + 8 > |data| then Error
            else Ok(Transaction(Read32(data, 0), inputs, outputs, Read64(data, p)))
  }

  lemma InputsFaithful(data: seq<Byte>, inputs: seq<TxInput>)
    requires forall i :: 0 <= i < |inputs| ==> |inputs[i].noiseProof| < BASE
    ensures Faithful(WithProof, ReadInput, FitInput, data, inputs)
  {
    forall i, k: nat | 0 <= i < |inputs| && At(data, k, WithProof(inputs[i]))
      ensures ReadInput(data, k) == if FitInput(inputs[i]) then Read(inputs[i], k + |WithProof(inputs[i])|) else Fail
    {
      InputBack(data, k, inputs[i]);
    }
  }

  lemma OutputsFaithful(data: seq<Byte>, outputs: seq<TxOutput>)
    requires forall i :: 0 <= i < |outputs| ==> |outputs[i].script| < 0x1_0000_0000_0000_0000
    ensures Faithful(EncodeOutput, ReadOutput, FitOutput, data, outputs)
  {
    hide EncodeOutput, ReadOutput;
    forall i, k: nat | 0 <= i < |outputs| && At(data, k, EncodeOutput(outputs[i]))
      ensures ReadOutput(data, k)
        == if FitOutput(outputs[i]) then Read(outputs[i], k + |EncodeOutput(outputs[i])|) else Fail
    {
      OutputBack(data, k, outputs[i]);
    }
  }

  /** A transaction parses back to itself, whatever follows it, exactly when it is within the limits. */
  lemma TxBack(tx: Transaction, rest: seq<Byte>)
    requires Countable(tx)
    ensures ReadTx(EncodeTx(tx, true) + rest) == if WithinLimits(tx) then Ok(tx) else Error
  {
    hide Read32, Read64, Le32, Le64, ReadAll, EncodeAll, ReadInput, ReadOutput, AllFit;
    var data := EncodeTx(tx, true) + rest;
    var tail := EncodeAll(EncodeOutput, tx.outputs) + Le64(tx.locktime);
    var middle := Le32(|tx.outputs|) + tail;
    var front := EncodeAll(WithProof, tx.inputs) + middle;
    assert At(data, 0, EncodeTx(tx, true));
    AtSplit(data, 0, Le32(tx.version), Le32(|tx.inputs|) + front);
    AtSplit(data, 4, Le32(|tx.inputs|), front);
    ReadBack32(data, 0, tx.version);
    ReadBack32(data, 4, |tx.inputs|);
    AtSplit(data, 8, EncodeAll(WithProof, tx.inputs), middle);
    InputsFaithful(data, tx.inputs);
    AllBack(WithProof, ReadInput, FitInput, data, 8, tx.inputs);
    var o := 8 + |EncodeAll(WithProof, tx.inputs)|;
    AtSplit(data, o, Le32(|tx.outputs|), tail);
    ReadBack32(data, o, |tx.outputs|);
    AtSplit(data, o + 4, EncodeAll(EncodeOutput, tx.outputs), Le64(tx.locktime));
    OutputsFaithful(data, tx.outputs);
    AllBack(EncodeOutput, ReadOutput, FitOutput, data, o + 4, tx.outputs);
    ReadBack64(data, o + 4 + |EncodeAll(EncodeOutput, tx.outputs)|, tx.locktime);
  }

  ghost predicate Anyhow(data: seq<Byte>, o: nat) { true }

  /** The size of the script of the output at an offset stands there in its shortest form. */
  ghost predicate ShortAt(data: seq<Byte>, o: nat)
  {
    var size := ReadCompact(data, o + 8);
    size.Read? && size.next == o + 8 + CompactLen(size.value)
  }

  /** Every script size stands in its shortest form, and nothing follows the lock time. */
  ghost predicate Canonical(data: seq<Byte>)
    requires ReadTx(data).Ok?
  {
    var o := ReadAll(ReadInput, data, 8, Read32(data, 4)).next;
    && EachRead(ReadOutput, ShortAt, data, o + 4, Read32(data, o))
    && ReadAll(ReadOutput, data, o + 4, Read32(data, o)).next + 8 == |data|
  }

  /**
   A parsed transaction prints to at most the bytes it was read from, and to exactly those when they are
   canonical.
   */
  lemma TxPrints(data: seq<Byte>)
    requires ReadTx(data).Ok?
    ensures var out := EncodeTx(ReadTx(data).value, true);
            |out| <= |data| && (out == data <==> Canonical(data)) && (|out| == |data| <==> Canonical(data))
  {
    hide Read32, Read64, Le32, Le64, ReadAll, EncodeAll, ReadInput, ReadOutput, AllPrint, EncodeOutput, Tight, EachRead;
    InputsPrint(data);
    OutputsPrint(data);
    ListPrints(WithProof, ReadInput, data, 8, Read32(data, 4));
    InputsTight(data, Read32(data, 4));
    var ins := ReadAll(ReadInput, data, 8, Read32(data, 4));
    var o := ins.next;
    ListPrints(EncodeOutput, ReadOutput, data, o + 4, Read32(data, o));
    OutputsTight(data);
    ListTight(EncodeOutput, ReadOutput, ShortAt, data, o + 4, Read32(data, o));
    var outs := ReadAll(ReadOutput, data, o + 4, Read32(data, o));
    WholePrints(data, o, outs.next, EncodeAll(WithProof, ins.value), EncodeAll(EncodeOutput, outs.value));
  }

  /** Inputs always print to as many bytes as they were read from. */
  lemma InputsTight(data: seq<Byte>, n: nat)
    requires 8 <= |data| && ReadAll(ReadInput, data, 8, n).Read?
    ensures var r := ReadAll(ReadInput, data, 8, n); r.next == 8 + |EncodeAll(WithProof, r.value)|
  {
    hide ReadAll, EncodeAll, AllPrint;
    InputsPrint(data);
    assert Tight(WithProof, ReadInput, Anyhow, data);
    ListTight(WithProof, ReadInput, Anyhow, data, 8, n);
    ReadsAnyhow(data, 8, n);
  }

  lemma {:induction false} ReadsAnyhow(data: seq<Byte>, o: nat, n: nat)
    requires ReadAll(ReadInput, data, o, n).Read?
    ensures EachRead(ReadInput, Anyhow, data, o, n)
    decreases n
  {
    hide ReadInput;
    if n > 0 { ReadsAnyhow(data, ReadInput(data, o).next, n - 1); }
  }

  lemma OutputsTight(data: seq<Byte>)
    ensures Tight(EncodeOutput, ReadOutput, ShortAt, data)
  {
    hide EncodeOutput, ReadOutput, ShortAt;
    forall o: nat | ReadOutput(data, o).Read?
      ensures ReadOutput(data, o).next == o + |EncodeOutput(ReadOutput(data, o).value)| <==> ShortAt(data, o)
    {
      OutputTight(data, o);
    }
  }

  lemma OutputTight(data: seq<Byte>, o: nat)
    requires ReadOutput(data, o).Read?
    ensures ReadOutput(data, o).next == o + |EncodeOutput(ReadOutput(data, o).value)| <==> ShortAt(data, o)
  {
    hide Read64, Le64, EncodeCompact, ReadCompact;
    CompactLength(ReadCompact(data, o + 8).value);
  }

  lemma CompactLength(v: Word64)
    ensures |EncodeCompact(v)| == CompactLen(v)
  {}

  /** With anything behind it a printed transaction still parses, and then does not print back. */
  lemma TrailingBytes(tx: Transaction, rest: seq<Byte>)
    requires Countable(tx) && WithinLimits(tx) && rest != []
    ensures var data := EncodeTx(tx, true) + rest;
            ReadTx(data) == Ok(tx) && EncodeTx(tx, true) != data && !Canonical(data)
  {
    hide EncodeTx, ReadTx, Countable, WithinLimits, Canonical;
    TxBack(tx, rest);
    TxPrints(EncodeTx(tx, true) + rest);
  }

  /** No input, and one output whose script is empty and whose size, zero, is written in three bytes. */
  ghost predicate LongForm(data: seq<Byte>)
  {
    && |data| == 31 && Read32(data, 4) == 0 && Read32(data, 8) == 1
    && Read64(data, 12) < 0x8000_0000_0000_0000 && data[20] == 253 && data[21] == 0 && data[22] == 0
  }

  /** It parses to the last byte, and does not print back. */
  lemma LongFormLost(data: seq<Byte>)
    requires LongForm(data)
    ensures ReadTx(data).Ok? && EncodeTx(ReadTx(data).value, true) != data
  {
    hide Read32, Read64, EncodeTx;
    assert ReadAll(ReadInput, data, 8, 0) == Read([], 8);
    assert ReadOutput(data, 12).Read? && ReadOutput(data, 12).next == 23 && !ShortAt(data, 12);
    OneItem(ReadOutput, ShortAt, data, 12);
    TxPrints(data);
  }

  lemma OneItem<T(!new)>(read: (seq<Byte>, nat) -> Read<T>, test: (seq<Byte>, nat) -> bool, data: seq<Byte>, o: nat)
    requires read(data, o).Read?
    ensures ReadAll(read, data, o, 1) == Read([read(data, o).value], read(data, o).next)
    ensures EachRead(read, test, data, o, 1) <==> test(data, o)
  {
    var x, next := read(data, o).value, read(data, o).next;
    assert ReadAll(read, data, next, 0) == Read([], next) && [x] + [] == [x];
    assert EachRead(read, test, data, next, 0);
  }

  /** Version, count, inputs, count, outputs and lock time, joined. */
  lemma WholePrints(data: seq<Byte>, o: nat, p: nat, ins: seq<Byte>, outs: seq<Byte>)
    requires 8 <= o && o + 4 <= p && p + 8 <= |data| && Prints(data, 8, o, ins) && Prints(data, o + 4, p, outs)
    ensures var out := Le32(Read32(data, 0)) + (Le32(Read32(data, 4)) +
      (ins + (Le32(Read32(data, o)) + (outs + Le64(Read64(data, p))))));
            |out| <= |data| && (|out| == |data| ==> out == data)
  {
    hide Read32, Read64, Le32, Le64;
    WriteBack32(data, 0);
    WriteBack32(data, 4);
    WriteBack32(data, o);
    WriteBack64(data, p);
    PrintsBoth(data, o + 4, p, p + 8, outs, data[p..p + 8]);
    PrintsBoth(data, o, o + 4, p + 8, data[o..o + 4], outs + data[p..p + 8]);
    PrintsBoth(data, 8, o, p + 8, ins, data[o..o + 4] + (outs + data[p..p + 8]));
    PrintsBoth(data, 4, 8, p + 8, data[4..8], ins + (data[o..o + 4] + (outs + data[p..p + 8])));
    PrintsBoth(data, 0, 4, p + 8, data[0..4], data[4..8] + (ins + (data[o..o + 4] + (outs + data[p..p + 8]))));
    assert p + 8 == |data| ==> data[0..p + 8] == data;
  }

  lemma InputsPrint(data: seq<Byte>)
    ensures AllPrint(WithProof, ReadInput, data)
  {
    hide ReadInput, Prints;
    forall o: nat | ReadInput(data, o).Read?
      ensures Prints(data, o, ReadInput(data, o).next, WithProof(ReadInput(data, o).value))
    {
      InputPrints(data, o);
    }
  }

  lemma OutputsPrint(data: seq<Byte>)
    ensures AllPrint(EncodeOutput, ReadOutput, data)
  {
    hide ReadOutput, EncodeOutput, Prints;
    forall o: nat | ReadOutput(data, o).Read?
      ensures Prints(data, o, ReadOutput(data, o).next, EncodeOutput(ReadOutput(data, o).value))
    {
      OutputPrints(data, o);
    }
  }

  lemma TxLength(tx: Transaction, withProof: bool)
    requires Countable(tx)
    ensures |EncodeTx(tx, withProof)| == TxSize(tx, withProof)
  {
    hide EncodeAll, SizeAll;
    SizeOfAll(if withProof then WithProof else WithoutProof, (i: TxInput) => InputSize(i, withProof), tx.inputs);
    OutputsLength(tx.outputs);
  }

  lemma OutputsLength(outputs: seq<TxOutput>)
    requires forall i :: 0 <= i < |outputs| ==> |outputs[i].script| < 0x1_0000_0000_0000_0000
    ensures |EncodeAll(EncodeOutput, outputs)| == SizeAll(OutputSize, outputs)
  {
    forall i | 0 <= i < |outputs|
      ensures |EncodeOutput(outputs[i])| == OutputSize(outputs[i])
    {
      OutputBack(EncodeOutput(outputs[i]), 0, outputs[i]);
    }
    SizeOfAll(EncodeOutput, OutputSize, outputs);
  }

  // ---------- What the bytes determine ----------

  /** No item's bytes are a beginning of another's, among those that meet a test. */
  ghost predicate PrefixFree<T(!new)>(encode: T -> seq<Byte>, test: T -> bool)
  {
    forall x, y, r, r' :: test(x) && test(y) && encode(x) + r == encode(y) + r' ==> x == y
  }

  /** Then a list is determined by its bytes and its length, whatever follows. */
  lemma {:induction false} ListDetermined<T(!new)>(encode: T -> seq<Byte>, test: T -> bool,
                                                   xs: seq<T>, r: seq<Byte>, ys: seq<T>, r': seq<Byte>)
    requires PrefixFree(encode, test) && |xs| == |ys| && AllFit(test, xs) && AllFit(test, ys)
    requires EncodeAll(encode, xs) + r == EncodeAll(encode, ys) + r'
    ensures xs == ys && r == r'
    decreases |xs|
  {
    if xs == [] {
      assert r == [] + r && r' == [] + r';
    } else {
      var a, b := EncodeAll(encode, xs[1..]), EncodeAll(encode, ys[1..]);
      assert encode(xs[0]) + a + r == encode(xs[0]) + (a + r) && encode(ys[0]) + b + r' == encode(ys[0]) + (b + r');
      assert xs[0] == ys[0];
      SameTail(encode(xs[0]), a + r, b + r');
      ListDetermined(encode, test, xs[1..], r, ys[1..], r');
      assert xs == [xs[0]] + xs[1..] && ys == [ys[0]] + ys[1..];
    }
  }

  lemma SameTail(a: seq<Byte>, b: seq<Byte>, c: seq<Byte>)
    requires a + b == a + c
    ensures b == c
  {
    assert b == (a + b)[|a|..] && c == (a + c)[|a|..];
  }

  /** Equal bytes of equal length in front are equal. */
  lemma SameFront(a: seq<Byte>, r: seq<Byte>, b: seq<Byte>, r': seq<Byte>)
    requires a + r == b + r' && |a| == |b|
    ensures a == b && r == r'
  {
    assert a == (a + r)[..|a|] && b == (b + r')[..|b|];
    SameTail(a, r, r');
  }

  /** The input with its proof emptied. */
  function Bare(i: TxInput): TxInput { i.(noiseProof := []) }

  /** What a form of the transaction shows of it: everything, or everything but the proofs. */
  ghost function Shown(tx: Transaction, withProof: bool): Transaction
  {
    if withProof then tx else tx.(inputs := seq(|tx.inputs|, i requires 0 <= i < |tx.inputs| => Bare(tx.inputs[i])))
  }

  predicate AnyInput(i: TxInput) { |i.noiseProof| < BASE }
  predicate BareInput(i: TxInput) { i.noiseProof == [] }
  predicate AnyOutput(t: TxOutput) { |t.script| < 0x1_0000_0000_0000_0000 }

  lemma BodyDetermines(a: TxInput, b: TxInput)
    requires InputBody(a) == InputBody(b)
    ensures Bare(a) == Bare(b)
  {
    hide InputBody;
    var s := InputBody(a);
    assert s == s[0..0 + |s|];
    BodyBack(s, 0, a);
    BodyBack(s, 0, b);
  }

  lemma BarePrefixFree()
    ensures PrefixFree(WithoutProof, BareInput)
  {
    forall x, y, r, r' | BareInput(x) && BareInput(y) && WithoutProof(x) + r == WithoutProof(y) + r'
      ensures x == y
    {
      assert WithoutProof(x) == InputBody(x) && WithoutProof(y) == InputBody(y);
      SameFront(InputBody(x), r, InputBody(y), r');
      BodyDetermines(x, y);
    }
  }

  lemma FullPrefixFree()
    ensures PrefixFree(WithProof, AnyInput)
  {
    forall x, y, r, r' | AnyInput(x) && AnyInput(y) && WithProof(x) + r == WithProof(y) + r'
      ensures x == y
    {
      FullDetermines(x, r, y, r');
    }
  }

  lemma FullDetermines(x: TxInput, r: seq<Byte>, y: TxInput, r': seq<Byte>)
    requires AnyInput(x) && AnyInput(y) && WithProof(x) + r == WithProof(y) + r'
    ensures x == y
  {
    hide Le32, InputBody;
    var p, q := Le32(|x.noiseProof|), Le32(|y.noiseProof|);
    assert WithProof(x) + r == InputBody(x) + (p + (x.noiseProof + r));
    assert WithProof(y) + r' == InputBody(y) + (q + (y.noiseProof + r'));
    SameFront(InputBody(x), p + (x.noiseProof + r), InputBody(y), q + (y.noiseProof + r'));
    SameFront(p, x.noiseProof + r, q, y.noiseProof + r');
    SameNumber(|x.noiseProof|, |y.noiseProof|);
    SameFront(x.noiseProof, r, y.noiseProof, r');
    BodyDetermines(x, y);
  }

  lemma SameNumber(m: Limb, n: Limb)
    requires Le32(m) == Le32(n)
    ensures m == n
  {
    hide Le32, Read32;
    var s := Le32(m);
    assert s == s[0..4];
    ReadBack32(s, 0, m);
    ReadBack32(s, 0, n);
  }

  lemma SameLong(m: Word64, n: Word64)
    requires Le64(m) == Le64(n)
    ensures m == n
  {
    hide Le64, Read64;
    var s := Le64(m);
    assert s == s[0..8];
    ReadBack64(s, 0, m);
    ReadBack64(s, 0, n);
  }

  lemma OutputPrefixFree()
    ensures PrefixFree(EncodeOutput, AnyOutput)
  {
    hide EncodeOutput;
    forall x, y, r, r' | AnyOutput(x) && AnyOutput(y) && EncodeOutput(x) + r == EncodeOutput(y) + r'
      ensures x == y
    {
      OutputDetermines(x, r, y, r');
    }
  }

  lemma OutputDetermines(x: TxOutput, r: seq<Byte>, y: TxOutput, r': seq<Byte>)
    requires AnyOutput(x) && AnyOutput(y) && EncodeOutput(x) + r == EncodeOutput(y) + r'
    ensures x == y
  {
    hide Le64, EncodeCompact, ReadCompact, CompactLen;
    var p, q := EncodeCompact(|x.script|), EncodeCompact(|y.script|);
    assert EncodeOutput(x) + r == Le64(Unsigned(x.value)) + (p + (x.script + r));
    assert EncodeOutput(y) + r' == Le64(Unsigned(y.value)) + (q + (y.script + r'));
    SameFront(Le64(Unsigned(x.value)), p + (x.script + r), Le64(Unsigned(y.value)), q + (y.script + r'));
    SameLong(Unsigned(x.value), Unsigned(y.value));
    SizeDetermined(|x.script|, x.script + r, |y.script|, y.script + r');
    SameFront(x.script, r, y.script, r');
  }

  lemma SizeDetermined(m: Word64, r: seq<Byte>, n: Word64, r': seq<Byte>)
    requires EncodeCompact(m) + r == EncodeCompact(n) + r'
    ensures m == n && r == r'
  {
    hide EncodeCompact, ReadCompact;
    var s := EncodeCompact(m) + r;
    assert s[0..0 + |EncodeCompact(m)|] == EncodeCompact(m) && s[0..0 + |EncodeCompact(n)|] == EncodeCompact(n);
    CompactBack(s, 0, m);
    CompactBack(s, 0, n);
    SameTail(EncodeCompact(m), r, r');
  }

  /** In either form two transactions with the same bytes are the same, up to the proofs the shorter form leaves out. */
  lemma TxDetermined(a: Transaction, b: Transaction, withProof: bool)
    requires Countable(a) && Countable(b) && EncodeTx(a, withProof) == EncodeTx(b, withProof)
    ensures Shown(a, withProof) == Shown(b, withProof)
  {
    hide Le32, Le64, EncodeAll, EncodeOutput, PrefixFree;
    var f := if withProof then WithProof else WithoutProof;
    var oa := EncodeAll(EncodeOutput, a.outputs) + Le64(a.locktime);
    var ob := EncodeAll(EncodeOutput, b.outputs) + Le64(b.locktime);
    var ra, rb := Le32(|a.outputs|) + oa, Le32(|b.outputs|) + ob;
    var ia, ib := EncodeAll(f, a.inputs) + ra, EncodeAll(f, b.inputs) + rb;
    SameFront(Le32(a.version), Le32(|a.inputs|) + ia, Le32(b.version), Le32(|b.inputs|) + ib);
    SameNumber(a.version, b.version);
    SameFront(Le32(|a.inputs|), ia, Le32(|b.inputs|), ib);
    SameNumber(|a.inputs|, |b.inputs|);
    InputsDetermined(a, b, withProof, ra, rb);
    SameFront(Le32(|a.outputs|), oa, Le32(|b.outputs|), ob);
    SameNumber(|a.outputs|, |b.outputs|);
    OutputPrefixFree();
    ListDetermined(EncodeOutput, AnyOutput, a.outputs, Le64(a.locktime), b.outputs, Le64(b.locktime));
    SameLong(a.locktime, b.locktime);
  }

  lemma InputsDetermined(a: Transaction, b: Transaction, withProof: bool, ra: seq<Byte>, rb: seq<Byte>)
    requires Countable(a) && Countable(b) && |a.inputs| == |b.inputs|
    requires var f := if withProof then WithProof else WithoutProof;
             EncodeAll(f, a.inputs) + ra == EncodeAll(f, b.inputs) + rb
    ensures Shown(a, withProof).inputs == Shown(b, withProof).inputs && ra == rb
  {
    hide EncodeAll, PrefixFree;
    if withProof {
      FullPrefixFree();
      ListDetermined(WithProof, AnyInput, a.inputs, ra, b.inputs, rb);
    } else {
      var xs, ys := Shown(a, false).inputs, Shown(b, false).inputs;
      BarePrefixFree();
      ShownSame(a.inputs, xs);
      ShownSame(b.inputs, ys);
      ListDetermined(WithoutProof, BareInput, xs, ra, ys, rb);
    }
  }

  /** The shorter form does not look at the proofs. */
  lemma {:induction false} ShownSame(xs: seq<TxInput>, bare: seq<TxInput>)
    requires |xs| == |bare| && forall i :: 0 <= i < |xs| ==> bare[i] == Bare(xs[i])
    ensures EncodeAll(WithoutProof, xs) == EncodeAll(WithoutProof, bare)
    decreases |xs|
  {
    if xs != [] { ShownSame(xs[1..], bare[1..]); }
  }

  /** Bytes that start with n inputs in the longer form, with the proof fields cut out. */
  ghost function CutProofs(data: seq<Byte>, n: nat): seq<Byte>
    decreases n
  {
    if n == 0 || |data| < 168 || |data| < 168 + Read32(data, 164) then data
    else data[..164] + CutProofs(data[168 + Read32(data, 164)..], n - 1)
  }

  /** The shorter form is the longer one with every proof and its length cut out. */
  lemma ProofsCut(tx: Transaction)
    requires Countable(tx)
    ensures var full := EncodeTx(tx, true);
            |full| >= 8 && EncodeTx(tx, false) == full[..8] + CutProofs(full[8..], |tx.inputs|)
  {
    hide EncodeAll, EncodeOutput, CutProofs, Le32, Le64;
    var tail := Le32(|tx.outputs| % BASE) + (EncodeAll(EncodeOutput, tx.outputs) + Le64(tx.locktime));
    InputsCut(tx.inputs, tail);
    var full := EncodeTx(tx, true);
    assert full[8..] == EncodeAll(WithProof, tx.inputs) + tail;
    assert full[..8] == Le32(tx.version) + Le32(|tx.inputs| % BASE);
    var cut := EncodeAll(WithoutProof, tx.inputs) + tail;
    assert Le32(tx.version) + (Le32(|tx.inputs| % BASE) + cut) == full[..8] + cut;
  }

  lemma {:induction false} InputsCut(xs: seq<TxInput>, tail: seq<Byte>)
    requires forall i :: 0 <= i < |xs| ==> |xs[i].noiseProof| < BASE
    ensures CutProofs(EncodeAll(WithProof, xs) + tail, |xs|) == EncodeAll(WithoutProof, xs) + tail
    decreases |xs|
  {
    hide CutProofs, InputBody, Le32;
    if xs == [] {
      assert EncodeAll(WithProof, xs) == [] == EncodeAll(WithoutProof, xs);
      NothingCut([] + tail);
    } else {
      var rest := EncodeAll(WithProof, xs[1..]) + tail;
      assert EncodeAll(WithProof, xs) + tail == WithProof(xs[0]) + rest;
      InputsCut(xs[1..], tail);
      InputCut(xs[0], rest, |xs|);
      assert EncodeAll(WithoutProof, xs) + tail == WithoutProof(xs[0]) + (EncodeAll(WithoutProof, xs[1..]) + tail);
    }
  }

  lemma NothingCut(data: seq<Byte>)
    ensures CutProofs(data, 0) == data
  {}

  lemma InputCut(x: TxInput, rest: seq<Byte>, n: nat)
    requires |x.noiseProof| < BASE && n > 0
    ensures CutProofs(WithProof(x) + rest, n) == InputBody(x) + CutProofs(rest, n - 1)
  {
    hide Le32, Read32, InputBody;
    var body, len := InputBody(x), Le32(|x.noiseProof|);
    var data := WithProof(x) + rest;
    assert data == body + (len + (x.noiseProof + rest));
    assert data[164..168] == len;
    ReadBack32(data, 164, |x.noiseProof|);
    assert data[..164] == body;
    assert data[168 + |x.noiseProof|..] == rest;
  }

  method SerializeTx(tx: Transaction, withProof: bool) returns (data: seq<Byte>)
    ensures data == EncodeTx(tx, withProof)
    ensures Countable(tx) ==> |data| == TxSize(tx, withProof)
  {
    hide Le32, Le64, EncodeAll, TxSize, Countable;
    data := Le32(tx.version);
    data := data + Le32(|tx.inputs| % BASE);
    data := WriteAll(if withProof then WithProof else WithoutProof, tx.inputs, data);
    data := data + Le32(|tx.outputs| % BASE);
    data := WriteAll(EncodeOutput, tx.outputs, data);
    data := data + Le64(tx.locktime);
    if Countable(tx) { TxLength(tx, withProof); }
  }

  method DeserializeTx(data: seq<Byte>) returns (r: Result<Transaction>)
    ensures r == ReadTx(data)
  {
    hide ReadAll, Read32, Read64, ReadInput, ReadOutput;
    if |data| < 20 { return Error; }
    var inputCount := Read32(data, 4);
    if inputCount > MAX_INPUTS { return Error; }
    var inputs := ReadList(ReadInput, data, 8, inputCount);
    if inputs.Fail? || inputs.next + 4 > |data| { return Error; }
    var outputCount := Read32(data, inputs.next);
    if outputCount > MAX_OUTPUTS { return Error; }
    var outputs := ReadList(ReadOutput, data, inputs.next + 4, outputCount);
    if outputs.Fail? || outputs.next + 8 > |data| { return Error; }
    return Ok(Transaction(Read32(data, 0), inputs.value, outputs.value, Read64(data, outputs.next)));
  }

  // ---------- Blocks ----------

  datatype Block = Block(header: Header.Fields, transactions: seq<Transaction>)

  ghost function EncodeSized(tx: Transaction): seq<Byte>
  {
    Le32(|EncodeTx(tx, true)| % BASE) + EncodeTx(tx, true)
  }

  ghost function EncodeBlock(b: Block): seq<Byte>
  {
    Header.Encode(b.header) + (Le32(|b.transactions| % BASE) + EncodeAll(EncodeSized, b.transactions))
  }

  ghost function BlockSize(b: Block): nat
  {
    Header.SERIALIZED_SIZE + 4 + SizeAll((tx: Transaction) => 4 + TxSize(tx, true), b.transactions)
  }

  function ReadSized(data: seq<Byte>, o: nat): Read<Transaction>
  {
    if o + 4 > |data| then Fail
    else
      var txLen := Read32(data, o);
      if txLen == 0 || o + 4 + txLen > |data| then Fail
      else
        match ReadTx(data[o + 4..o + 4 + txLen])
        case Error => Fail
        case Ok(tx) => Read(tx, o + 4 + txLen)
  }

  function ReadBlock(data: seq<Byte>): Result<Block>
  {
    if |data| < Header.SERIALIZED_SIZE + 4 || Read32(data, Header.SERIALIZED_SIZE) > MAX_TRANSACTIONS then Error
    else
      match ReadAll(ReadSized, data, Header.SERIALIZED_SIZE + 4, Read32(data, Header.SERIALIZED_SIZE))
      case Fail => Error
      case Read(txs, _) => Ok(Block(Header.Decode(data), txs))
  }

  ghost predicate FitTx(tx: Transaction) { WithinLimits(tx) }

  ghost predicate CountableBlock(b: Block)
  {
    && |b.transactions| < BASE
    && (forall i :: 0 <= i < |b.transactions| ==>
          Countable(b.transactions[i]) && TxSize(b.transactions[i], true) < BASE)
  }

  lemma SizedBack(data: seq<Byte>, o: nat, tx: Transaction)
    requires At(data, o, EncodeSized(tx)) && Countable(tx) && TxSize(tx, true) < BASE
    ensures ReadSized(data, o) == if FitTx(tx) then Read(tx, o + |EncodeSized(tx)|) else Fail
  {
    hide EncodeTx, Read32, Le32, ReadTx, WithinLimits, TxSize, Countable;
    var s := EncodeTx(tx, true);
    TxLength(tx, true);
    TxLong(tx);
    AtSplit(data, o, Le32(|s|), s);
    ReadBack32(data, o, |s|);
    assert data[o + 4..o + 4 + |s|] == s + [];
    TxBack(tx, []);
  }

  lemma TxLong(tx: Transaction)
    ensures TxSize(tx, true) >= 20
  {}

  /**
   A block parses back to itself exactly when it has no more transactions than allowed and each is within its
   limits.
   */
  lemma BlockBack(b: Block, rest: seq<Byte>)
    requires CountableBlock(b)
    ensures ReadBlock(EncodeBlock(b) + rest)
         == if |b.transactions| <= MAX_TRANSACTIONS && AllFit(FitTx, b.transactions) then Ok(b) else Error
  {
    hide Read32, Le32, ReadAll, EncodeAll, ReadSized, EncodeSized;
    hide AllFit, Header.Encode, Header.Decode, TxSize, Countable;
    var data := EncodeBlock(b) + rest;
    var tail := Le32(|b.transactions|) + EncodeAll(EncodeSized, b.transactions);
    assert At(data, 0, EncodeBlock(b));
    AtSplit(data, 0, Header.Encode(b.header), tail);
    AtSplit(data, 120, Le32(|b.transactions|), EncodeAll(EncodeSized, b.transactions));
    ReadBack32(data, 120, |b.transactions|);
    assert data == Header.Encode(b.header) + (tail + rest);
    Header.EncodeDecode(b.header, tail + rest);
    SizedFaithful(data, b.transactions);
    AllBack(EncodeSized, ReadSized, FitTx, data, 124, b.transactions);
  }

  lemma SizedPrints(data: seq<Byte>, o: nat)
    requires ReadSized(data, o).Read?
    ensures var r := ReadSized(data, o); Prints(data, o, r.next, EncodeSized(r.value))
  {
    hide EncodeTx, Read32, Le32, ReadTx;
    var r, n := ReadSized(data, o), Read32(data, o);
    var piece := data[o + 4..o + 4 + n];
    TxPrints(piece);
    WriteBack32(data, o);
    assert data[o..r.next] == data[o..o + 4] + piece;
  }

  lemma SizedAllPrint(data: seq<Byte>)
    ensures AllPrint(EncodeSized, ReadSized, data)
  {
    hide ReadSized, EncodeSized, Prints;
    forall o: nat | ReadSized(data, o).Read?
      ensures Prints(data, o, ReadSized(data, o).next, EncodeSized(ReadSized(data, o).value))
    {
      SizedPrints(data, o);
    }
  }

  /** The transaction of the sized item at an offset is canonical. */
  ghost predicate CanonicalAt(data: seq<Byte>, o: nat)
  {
    ReadSized(data, o).Read? && Canonical(data[o + 4..ReadSized(data, o).next])
  }

  /** Every transaction is canonical, and nothing follows the last one. */
  ghost predicate CanonicalBlock(data: seq<Byte>)
    requires ReadBlock(data).Ok?
  {
    var n := Read32(data, Header.SERIALIZED_SIZE);
    && EachRead(ReadSized, CanonicalAt, data, Header.SERIALIZED_SIZE + 4, n)
    && ReadAll(ReadSized, data, Header.SERIALIZED_SIZE + 4, n).next == |data|
  }

  lemma SizedTight(data: seq<Byte>)
    ensures Tight(EncodeSized, ReadSized, CanonicalAt, data)
  {
    hide ReadTx, EncodeTx, Canonical, Read32, Le32;
    forall o: nat | ReadSized(data, o).Read?
      ensures ReadSized(data, o).next == o + |EncodeSized(ReadSized(data, o).value)| <==> CanonicalAt(data, o)
    {
      TxPrints(data[o + 4..ReadSized(data, o).next]);
    }
  }

  /** A parsed block prints to at most the bytes it was read from, and to exactly those when they are canonical. */
  lemma BlockPrints(data: seq<Byte>)
    requires ReadBlock(data).Ok?
    ensures var out := EncodeBlock(ReadBlock(data).value);
            |out| <= |data| && (out == data <==> CanonicalBlock(data))
  {
    hide Read32, Le32, ReadAll, EncodeAll, ReadSized, EncodeSized, AllPrint;
    hide Header.Encode, Header.Decode, Tight, EachRead, CanonicalAt;
    SizedAllPrint(data);
    SizedTight(data);
    ListPrints(EncodeSized, ReadSized, data, 124, Read32(data, 120));
    ListTight(EncodeSized, ReadSized, CanonicalAt, data, 124, Read32(data, 120));
    Header.DecodeEncode(data);
    WriteBack32(data, 120);
    var r := ReadAll(ReadSized, data, 124, Read32(data, 120));
    var body := EncodeAll(EncodeSized, r.value);
    PrintsBoth(data, 120, 124, r.next, data[120..124], body);
    PrintsBoth(data, 0, 120, r.next, data[..120], data[120..124] + body);
    assert r.next == |data| ==> data[0..r.next] == data;
  }

  lemma SizedFaithful(data: seq<Byte>, txs: seq<Transaction>)
    requires forall i :: 0 <= i < |txs| ==> Countable(txs[i]) && TxSize(txs[i], true) < BASE
    ensures Faithful(EncodeSized, ReadSized, FitTx, data, txs)
  {
    hide EncodeSized, ReadSized, FitTx, TxSize, Countable;
    forall i, k: nat | 0 <= i < |txs| && At(data, k, EncodeSized(txs[i]))
      ensures ReadSized(data, k) == if FitTx(txs[i]) then Read(txs[i], k + |EncodeSized(txs[i])|) else Fail
    {
      SizedBack(data, k, txs[i]);
    }
  }

  lemma BlockLength(b: Block)
    requires CountableBlock(b)
    ensures |EncodeBlock(b)| == BlockSize(b)
  {
    hide EncodeAll, SizeAll, EncodeTx, TxSize;
    var size := (tx: Transaction) => 4 + TxSize(tx, true);
    forall i | 0 <= i < |b.transactions|
      ensures |EncodeSized(b.transactions[i])| == size(b.transactions[i])
    {
      TxLength(b.transactions[i], true);
    }
    SizeOfAll(EncodeSized, size, b.transactions);
  }

  method SerializeBlock(b: Block) returns (data: seq<Byte>)
    ensures data == EncodeBlock(b)
    ensures CountableBlock(b) ==> |data| == BlockSize(b)
  {
    hide Le32, EncodeTx, BlockSize, CountableBlock, Header.Encode;
    var hdr := new Header.BlockHeader(b.header);
    data := hdr.Serialize();
    data := data + Le32(|b.transactions| % BASE);
    ghost var front := data;
    for i := 0 to |b.transactions|
      invariant data + EncodeAll(EncodeSized, b.transactions[i..]) == front + EncodeAll(EncodeSized, b.transactions)
    {
      assert b.transactions[i..][1..] == b.transactions[i + 1..];
      var txData := SerializeTx(b.transactions[i], true);
      data := data + Le32(|txData| % BASE);
      data := data + txData;
    }
    assert b.transactions[|b.transactions|..] == [];
    ghost var count, body := Le32(|b.transactions| % BASE), EncodeAll(EncodeSized, b.transactions);
    assert Header.Encode(b.header) + count + body == Header.Encode(b.header) + (count + body);
    if CountableBlock(b) { BlockLength(b); }
  }

  method DeserializeBlock(data: seq<Byte>) returns (r: Result<Block>)
    ensures r == ReadBlock(data)
  {
    hide ReadAll, Read32, ReadSized, Header.Encode;
    if |data| < Header.SERIALIZED_SIZE + 4 { return Error; }
    var header := Header.BlockHeader.Deserialize(data);
    var txCount := Read32(data, Header.SERIALIZED_SIZE);
    if txCount > MAX_TRANSACTIONS { return Error; }
    var txs := ReadList(ReadSized, data, Header.SERIALIZED_SIZE + 4, txCount);
    if txs.Fail? { return Error; }
    return Ok(Block(header.value, txs.value));
  }

  // ---------- Undo records ----------

  const COIN_BLOB_SIZE: nat := 46

  datatype Coin = Coin(value: Int64, height: Limb, isCoinbase: bool, isSpent: bool, pubkeyHash: Digest)
  datatype TxUndo = TxUndo(spentCoins: seq<Coin>)
  datatype BlockUndo = BlockUndo(txUndo: seq<TxUndo>)

  function Flag(b: bool): Byte { if b then 1 else 0 }

  function EncodeCoin(c: Coin): (s: seq<Byte>)
    ensures |s| == COIN_BLOB_SIZE
  {
    Le64(Unsigned(c.value)) + (Le32(c.height) + ([Flag(c.isCoinbase), Flag(c.isSpent)] + c.pubkeyHash))
  }

  function ReadCoin(data: seq<Byte>, o: nat): Read<Coin>
  {
    if o + COIN_BLOB_SIZE > |data| then Fail
    else
      Read(Coin(Signed(Read64(data, o)), Read32(data, o + 8), data[o + 12] != 0, data[o + 13] != 0,
           data[o + 14..o + 46]), o + 46)
  }

  predicate FitCoin(c: Coin) { true }

  lemma CoinBack(data: seq<Byte>, o: nat, c: Coin)
    requires At(data, o, EncodeCoin(c))
    ensures ReadCoin(data, o) == Read(c, o + COIN_BLOB_SIZE)
  {
    hide Read32, Read64, Le32, Le64;
    var flags := [Flag(c.isCoinbase), Flag(c.isSpent)];
    AtSplit(data, o, Le64(Unsigned(c.value)), Le32(c.height) + (flags + c.pubkeyHash));
    AtSplit(data, o + 8, Le32(c.height), flags + c.pubkeyHash);
    AtSplit(data, o + 12, flags, c.pubkeyHash);
    ReadBack64(data, o, Unsigned(c.value));
    ReadBack32(data, o + 8, c.height);
    assert data[o + 12] == data[o + 12..o + 14][0] && data[o + 13] == data[o + 12..o + 14][1];
  }

  ghost function EncodeTxUndo(u: TxUndo): seq<Byte>
  {
    Le32(|u.spentCoins| % BASE) + EncodeAll(EncodeCoin, u.spentCoins)
  }

  ghost function EncodeUndo(u: BlockUndo): seq<Byte>
  {
    Le32(|u.txUndo| % BASE) + EncodeAll(EncodeTxUndo, u.txUndo)
  }

  function ReadTxUndo(data: seq<Byte>, o: nat): Read<TxUndo>
  {
    if o + 4 > |data| then Fail
    else
      var count := Read32(data, o);
      if count > MAX_TRANSACTIONS || o + 4 + count as int * COIN_BLOB_SIZE > |data| then Fail
      else
        match ReadAll(ReadCoin, data, o + 4, count)
        case Fail => Fail
        case Read(coins, p) => Read(TxUndo(coins), p)
  }

  function ReadUndo(data: seq<Byte>): Result<BlockUndo>
  {
    if |data| < 4 || Read32(data, 0) > MAX_TRANSACTIONS then Error
    else
      match ReadAll(ReadTxUndo, data, 4, Read32(data, 0))
      case Fail => Error
      case Read(us, _) => Ok(BlockUndo(us))
  }

  predicate FitUndo(u: TxUndo) { |u.spentCoins| <= MAX_TRANSACTIONS }

  lemma CoinsLength(coins: seq<Coin>)
    ensures |EncodeAll(EncodeCoin, coins)| == |coins| * COIN_BLOB_SIZE
  {
    if coins != [] { CoinsLength(coins[1..]); }
  }

  lemma TxUndoBack(data: seq<Byte>, o: nat, u: TxUndo)
    requires At(data, o, EncodeTxUndo(u)) && |u.spentCoins| < BASE
    ensures ReadTxUndo(data, o) == if FitUndo(u) then Read(u, o + |EncodeTxUndo(u)|) else Fail
  {
    hide Read32, Le32, ReadAll, EncodeAll, ReadCoin, EncodeCoin;
    var coins := u.spentCoins;
    AtSplit(data, o, Le32(|coins|), EncodeAll(EncodeCoin, coins));
    ReadBack32(data, o, |coins|);
    CoinsLength(coins);
    CoinsFaithful(data, coins);
    AllBack(EncodeCoin, ReadCoin, FitCoin, data, o + 4, coins);
  }

  lemma CoinsFaithful(data: seq<Byte>, coins: seq<Coin>)
    ensures Faithful(EncodeCoin, ReadCoin, FitCoin, data, coins)
  {
    hide EncodeCoin, ReadCoin;
    forall i, k: nat | 0 <= i < |coins| && At(data, k, EncodeCoin(coins[i]))
      ensures ReadCoin(data, k) == if FitCoin(coins[i]) then Read(coins[i], k + |EncodeCoin(coins[i])|) else Fail
    {
      CoinBack(data, k, coins[i]);
    }
  }

  ghost predicate CountableUndo(u: BlockUndo)
  {
    |u.txUndo| < BASE && forall i :: 0 <= i < |u.txUndo| ==> |u.txUndo[i].spentCoins| < BASE
  }

  /** An undo record parses back to itself exactly when neither count is above the limit. */
  lemma UndoBack(u: BlockUndo, rest: seq<Byte>)
    requires CountableUndo(u)
    ensures ReadUndo(EncodeUndo(u) + rest)
      == if |u.txUndo| <= MAX_TRANSACTIONS && AllFit(FitUndo, u.txUndo) then Ok(u) else Error
  {
    hide Read32, Le32, ReadAll, EncodeAll, ReadTxUndo, EncodeTxUndo, AllFit;
    var data := EncodeUndo(u) + rest;
    assert At(data, 0, EncodeUndo(u));
    AtSplit(data, 0, Le32(|u.txUndo|), EncodeAll(EncodeTxUndo, u.txUndo));
    ReadBack32(data, 0, |u.txUndo|);
    UndosFaithful(data, u.txUndo);
    AllBack(EncodeTxUndo, ReadTxUndo, FitUndo, data, 4, u.txUndo);
  }

  lemma UndosFaithful(data: seq<Byte>, us: seq<TxUndo>)
    requires forall i :: 0 <= i < |us| ==> |us[i].spentCoins| < BASE
    ensures Faithful(EncodeTxUndo, ReadTxUndo, FitUndo, data, us)
  {
    hide EncodeTxUndo, ReadTxUndo;
    forall i, k: nat | 0 <= i < |us| && At(data, k, EncodeTxUndo(us[i]))
      ensures ReadTxUndo(data, k) == if FitUndo(us[i]) then Read(us[i], k + |EncodeTxUndo(us[i])|) else Fail
    {
      TxUndoBack(data, k, us[i]);
    }
  }

  method SerializeUndo(u: BlockUndo) returns (data: seq<Byte>)
    ensures data == EncodeUndo(u)
  {
    hide Le32, EncodeCoin;
    data := Le32(|u.txUndo| % BASE);
    ghost var front := data;
    for i := 0 to |u.txUndo|
      invariant data + EncodeAll(EncodeTxUndo, u.txUndo[i..]) == front + EncodeAll(EncodeTxUndo, u.txUndo)
    {
      assert u.txUndo[i..][1..] == u.txUndo[i + 1..];
      data := data + Le32(|u.txUndo[i].spentCoins| % BASE);
      data := WriteAll(EncodeCoin, u.txUndo[i].spentCoins, data);
    }
    assert u.txUndo[|u.txUndo|..] == [];
  }

  method DeserializeUndo(data: seq<Byte>) returns (r: Result<BlockUndo>)
    ensures r == ReadUndo(data)
  {
    hide ReadAll, Read32, ReadTxUndo;
    if |data| < 4 { return Error; }
    var txCount := Read32(data, 0);
    if txCount > MAX_TRANSACTIONS { return Error; }
    var us := ReadList(ReadTxUndo, data, 4, txCount);
    if us.Fail? { return Error; }
    return Ok(BlockUndo(us.value));
  }
}
