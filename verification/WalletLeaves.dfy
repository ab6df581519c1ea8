/** Single-use leaves: the bitmap of used ones, its trimmed image on disk, and signing across failures and restarts. */
module WalletLeaves {
  import opened Limbs
  import opened ByteIo
  import opened Common
  import opened Bytes32
  import opened Hashing

  const LEAF_COUNT: nat := 1048576
  const MAP_BYTES: nat := (LEAF_COUNT + 7) / 8
  const PROOFS_PER_INPUT: nat := 4

  // ---------- The bitmap ----------

  predicate Bit(x: nat, k: nat) { (x / Pow2(k)) % 2 == 1 }

  predicate LeafUsed(used: seq<Byte>, i: nat) { i / 8 < |used| && Bit(used[i / 8], i % 8) }

  lemma {:induction false} OrBit(x: nat, k: nat, j: nat)
    ensures Bit(Or(x, Pow2(k)), j) <==> Bit(x, j) || j == k
    decreases j
  {
    var y := Pow2(k);
    var z := Or(x, y);
    assert z == (if x % 2 == 1 || y % 2 == 1 then 1 else 0) + 2 * Or(x / 2, y / 2);
    assert z / 2 == Or(x / 2, y / 2);
    if j == 0 {
      assert Pow2(0) == 1;
    } else {
      NestedQuotient(z, Pow2(j - 1));
      NestedQuotient(x, Pow2(j - 1));
      if k == 0 {
        assert y / 2 == 0;
        OrNothing(x / 2);
      } else {
        assert y / 2 == Pow2(k - 1);
        OrBit(x / 2, k - 1, j - 1);
      }
    }
  }

  function Resized(used: seq<Byte>): (r: seq<Byte>)
    ensures |r| >= MAP_BYTES
  {
    if |used| < MAP_BYTES then used + seq(MAP_BYTES - |used|, _ => 0) else used
  }

  function SetBit(b: Byte, k: nat): (r: Byte)
    requires k < 8
  {
    var n: nat := 8;
    Pow2Byte(n);
    Pow2Less(k, n);
    OrBound(b, Pow2(k), n);
    Or(b, Pow2(k))
  }

  lemma Pow2Less(k: nat, n: nat)
    requires k < n
    ensures Pow2(k) < Pow2(n)
  {
    Pow2Mono(k, n - 1);
  }

  lemma ZeroBits(k: nat)
    ensures !Bit(0, k)
  {
    DivUnique(0, Pow2(k), 0, 0);
  }

  /** Padding with zero bytes marks nothing. */
  lemma ResizedBits(used: seq<Byte>, j: nat)
    ensures LeafUsed(Resized(used), j) <==> LeafUsed(used, j)
  {
    hide Bit;
    ZeroBits(j % 8);
  }

  ghost function Marked(used: seq<Byte>, i: nat): seq<Byte>
  {
    var r := Resized(used);
    if i / 8 < |r| then r[i / 8 := SetBit(r[i / 8], i % 8)] else r
  }

  /** Marking a leaf marks that leaf and no other; a leaf beyond the map is not recorded. */
  lemma MarkedBits(used: seq<Byte>, i: nat, j: nat)
    ensures LeafUsed(Marked(used, i), j) <==> LeafUsed(used, j) || (j == i && i / 8 < |Resized(used)|)
  {
    hide Bit, Or, Pow2;
    ResizedBits(used, j);
    var r := Resized(used);
    if i / 8 == j / 8 && i / 8 < |r| { OrBit(r[i / 8], i % 8, j % 8); }
  }

  // ---------- On disk ----------

  /** What the wallet file says about the leaves: a bitmap, or in old files only how many were used. */
  datatype Image = Current(nextLeaf: nat, used: seq<Byte>) | Legacy(nextLeaf: nat)

  ghost predicate OnDisk(d: Image, i: nat)
  {
    match d
    case Current(_, used) => LeafUsed(used, i)
    case Legacy(n) => i < n
  }

  ghost predicate Loadable(d: Image)
  {
    d.nextLeaf <= LEAF_COUNT && (d.Current? ==> |d.used| <= MAP_BYTES)
  }

  /** Dropping trailing zero bytes drops no mark. */
  lemma TrimmedBits(used: seq<Byte>, n: nat, j: nat)
    requires n <= |used| && forall k :: n <= k < |used| ==> used[k] == 0
    ensures LeafUsed(used[..n], j) <==> LeafUsed(used, j)
  {
    hide Bit;
    ZeroBits(j % 8);
  }

  /** Both list the same leaves. */
  ghost predicate SameLeaves(a: seq<Byte>, b: seq<Byte>)
  {
    forall i: nat :: LeafUsed(a, i) <==> LeafUsed(b, i)
  }

  // ---------- Signing ----------

  predicate NoRepeats(s: seq<nat>)
  {
    forall i, j :: 0 <= i < j < |s| ==> s[i] != s[j]
  }

  /** The leaves all inputs ask for, in order. */
  function Leaves(wanted: seq<seq<nat>>): seq<nat>
  {
    if wanted == [] then [] else Leaves(wanted[..|wanted| - 1]) + wanted[|wanted| - 1]
  }

  /**
   The j-th leaf an input must use: the first four bytes of a hash over the transaction, the pool, and both
   numbers.
   */
  function LeafIndex(txHash: Digest, kps: Digest, input: Limb, j: Limb): (l: nat)
    ensures l < LEAF_COUNT
  {
    Read32(HashOf(txHash + kps + Le32(input) + Le32(j)), 0) % LEAF_COUNT
  }

  function Derived(txHash: Digest, kps: Digest, input: Limb): (leaves: seq<nat>)
    ensures |leaves| == PROOFS_PER_INPUT && forall j :: 0 <= j < |leaves| ==> leaves[j] < LEAF_COUNT
  {
    seq(PROOFS_PER_INPUT, j requires 0 <= j < PROOFS_PER_INPUT => LeafIndex(txHash, kps, input, j))
  }

  function Wanted(txHash: Digest, kps: seq<Digest>): seq<seq<nat>>
  {
    seq(|kps|, i requires 0 <= i < |kps| => Derived(txHash, kps[i], i % BASE))
  }

  lemma {:induction false} LeavesInRange(wanted: seq<seq<nat>>)
    requires forall i, j :: 0 <= i < |wanted| && 0 <= j < |wanted[i]| ==> wanted[i][j] < LEAF_COUNT
    ensures forall l :: l in Leaves(wanted) ==> l < LEAF_COUNT
  {
    if wanted != [] { LeavesInRange(wanted[..|wanted| - 1]); }
  }

  method DeriveLeafIndices(txHash: Digest, kps: Digest, input: Limb) returns (out: seq<nat>)
    ensures out == Derived(txHash, kps, input)
  {
    hide LeafIndex;
    out := [];
    for j := 0 to PROOFS_PER_INPUT
      invariant out == Derived(txHash, kps, input)[..j]
    {
      var h := HashParts([txHash, kps, Le32(input), Le32(j)]);
      assert Concat([txHash, kps, Le32(input), Le32(j)]) == txHash + kps + Le32(input) + Le32(j) by {
        FourParts(txHash, kps, Le32(input), Le32(j));
      }
      LeafIs(txHash, kps, input, j, h);
      out := out + [Read32(h, 0) % LEAF_COUNT];
    }
  }

  method DeriveAll(txHash: Digest, kps: seq<Digest>) returns (wanted: seq<seq<nat>>)
    ensures wanted == Wanted(txHash, kps)
  {
    hide Derived;
    wanted := [];
    for i := 0 to |kps|
      invariant wanted == Wanted(txHash, kps)[..i]
    {
      var leaves := DeriveLeafIndices(txHash, kps[i], i % BASE);
      wanted := wanted + [leaves];
    }
  }

  lemma LeafIs(txHash: Digest, kps: Digest, input: Limb, j: Limb, h: seq<Byte>)
    requires h == HashOf(txHash + kps + Le32(input) + Le32(j))
    ensures LeafIndex(txHash, kps, input, j) == Read32(h, 0) % LEAF_COUNT
  {}

  lemma FourParts(a: seq<Byte>, b: seq<Byte>, c: seq<Byte>, d: seq<Byte>)
    ensures Concat([a, b, c, d]) == a + b + c + d
  {
    assert [a, b, c, d][..3] == [a, b, c] && [a, b, c][..2] == [a, b] && [a, b][..1] == [a] && [a][..0] == [];
    assert Concat([a, b, c, d]) == Concat([a, b, c]) + d;
    assert Concat([a, b, c]) == Concat([a, b]) + c;
    assert Concat([a, b]) == Concat([a]) + b && Concat([a]) == [] + a;
  }

  /** Which leaves count as used, in memory and in the file. */
  datatype Book = Book(memory: iset<nat>, disk: iset<nat>) {
    /** Enough leaves remain, and those asked for are fresh and all different. */
    ghost predicate Grants(leaves: seq<nat>, inputs: nat, remaining: nat)
    {
      remaining >= inputs && NoRepeats(leaves) && forall l :: l in leaves ==> l !in memory
    }

    ghost function Marked(leaves: seq<nat>): Book
    {
      Book(memory + (iset l | l in leaves && l < LEAF_COUNT), disk)
    }

    ghost function Saved(writable: bool): Book { if writable then Book(memory, memory) else this }

    ghost function Restarted(): Book { Book(disk, disk) }
  }

  ghost function BookOf(used: seq<Byte>, d: Image): Book
  {
    Book((iset i: nat | LeafUsed(used, i)), (iset i: nat | OnDisk(d, i)))
  }

  class Wallet {
    var noiseUsed: seq<Byte>
    var noiseNextLeaf: nat
    /** The file as it would be read back. */
    var disk: Image

    /** What is on disk is known in memory, and the file can be read again. */
    ghost predicate Valid()
      reads this
    {
      && |noiseUsed| <= MAP_BYTES && noiseNextLeaf <= LEAF_COUNT && Loadable(disk)
      && forall i: nat :: OnDisk(disk, i) ==> LeafUsed(noiseUsed, i)
    }

    predicate IsNoiseLeafUsed(index: nat)
      reads this
    {
      LeafUsed(noiseUsed, index)
    }

    method MarkNoiseLeafUsed(index: nat)
      requires Valid()
      modifies this`noiseUsed
      ensures Valid()
      ensures forall i: nat :: LeafUsed(noiseUsed, i) <==>
        LeafUsed(old(noiseUsed), i) || (i == index && index < LEAF_COUNT)
    {
      hide LeafUsed;
      forall i: nat
        ensures LeafUsed(Marked(noiseUsed, index), i) <==> LeafUsed(noiseUsed, i) || (i == index && index < LEAF_COUNT)
      {
        MarkedBits(noiseUsed, index, i);
      }
      noiseUsed := Resized(noiseUsed);
      if index / 8 < |noiseUsed| { noiseUsed := noiseUsed[index / 8 := SetBit(noiseUsed[index / 8], index % 8)]; }
      assert noiseUsed == Marked(old(noiseUsed), index);
    }

    /** Saving replaces the file whole or not at all. */
    method SaveToFile(writable: bool) returns (ok: bool)
      requires Valid()
      modifies this`disk
      ensures Valid() && ok == writable
      ensures ok ==> disk.Current? && SameLeaves(disk.used, noiseUsed)
      ensures !ok ==> disk == old(disk)
      ensures Books() == old(Books()).Saved(writable)
    {
      var usedLen := |noiseUsed|;
      while usedLen > 0 && noiseUsed[usedLen - 1] == 0
        invariant 0 <= usedLen <= |noiseUsed| && forall k :: usedLen <= k < |noiseUsed| ==> noiseUsed[k] == 0
      {
        usedLen := usedLen - 1;
      }
      if !writable { return false; }
      forall i: nat
        ensures LeafUsed(noiseUsed[..usedLen], i) <==> LeafUsed(noiseUsed, i)
      {
        TrimmedBits(noiseUsed, usedLen, i);
      }
      disk := Current(noiseNextLeaf, noiseUsed[..usedLen]);
      return true;
    }

    /** Reading the file into memory: the map starts out blank and takes what the file has. */
    method LoadFromFile() returns (ok: bool)
      modifies this
      ensures disk == old(disk) && (ok <==> Loadable(disk))
      ensures ok ==> Valid() && Books() == old(Books()).Restarted()
    {
      hide LeafUsed;
      if disk.nextLeaf > LEAF_COUNT { return false; }
      if disk.Current? && |disk.used| > MAP_BYTES { return false; }
      noiseNextLeaf := disk.nextLeaf;
      if disk.Current? {
        noiseUsed := disk.used + seq(MAP_BYTES - |disk.used|, _ => 0);
        forall i: nat
          ensures LeafUsed(noiseUsed, i) <==> LeafUsed(disk.used, i)
        {
          PaddedBits(disk.used, noiseUsed, i);
        }
      } else {
        ReadLegacy();
      }
      return true;
    }

    /** An old file: every leaf below the pointer counts as used. */
    method ReadLegacy()
      requires disk.Legacy? && disk.nextLeaf <= LEAF_COUNT
      modifies this`noiseUsed
      ensures |noiseUsed| == MAP_BYTES && forall i: nat :: LeafUsed(noiseUsed, i) <==> i < disk.nextLeaf
    {
      hide LeafUsed;
      noiseUsed := seq(MAP_BYTES, _ => 0);
      forall i: nat
        ensures !LeafUsed(noiseUsed, i)
      {
        BlankBits(noiseUsed, i);
      }
      for n := 0 to disk.nextLeaf
        invariant |noiseUsed| == MAP_BYTES && forall i: nat :: LeafUsed(noiseUsed, i) <==> i < n
      {
        forall i: nat
          ensures LeafUsed(Marked(noiseUsed, n), i) <==> i < n + 1
        {
          MarkedBits(noiseUsed, n, i);
        }
        assert Marked(noiseUsed, n) == noiseUsed[n / 8 := SetBit(noiseUsed[n / 8], n % 8)];
        noiseUsed := noiseUsed[n / 8 := SetBit(noiseUsed[n / 8], n % 8)];
      }
    }

    /** One input's leaves: distinct, unused, and not asked for by an earlier input. */
    method CheckInput(w: seq<nat>, consumed: seq<nat>) returns (ok: bool)
      ensures ok <==> NoRepeats(w) && forall k :: 0 <= k < |w| ==> !LeafUsed(noiseUsed, w[k]) && w[k] !in consumed
    {
      hide LeafUsed;
      var a := 0;
      while a + 1 < |w|
        invariant 0 <= a && forall i, j :: 0 <= i < a && i < j < |w| ==> w[i] != w[j]
      {
        for b := a + 1 to |w|
          invariant forall j :: a < j < b ==> w[a] != w[j]
        {
          if w[a] == w[b] { return false; }
        }
        a := a + 1;
      }
      for k := 0 to |w|
        invariant forall i :: 0 <= i < k ==> !LeafUsed(noiseUsed, w[i]) && w[i] !in consumed
      {
        if IsNoiseLeafUsed(w[k]) || w[k] in consumed { return false; }
      }
      return true;
    }

    /** The leaves of all inputs, if none is used and none is asked for twice. */
    method Gather(wanted: seq<seq<nat>>) returns (ok: bool, consumed: seq<nat>)
      ensures ok <==> NoRepeats(Leaves(wanted)) && forall l :: l in Leaves(wanted) ==> !LeafUsed(noiseUsed, l)
      ensures ok ==> consumed == Leaves(wanted)
    {
      hide LeafUsed, NoRepeats;
      consumed := [];
      NothingRepeats();
      for i := 0 to |wanted|
        invariant consumed == Leaves(wanted[..i])
        invariant NoRepeats(consumed) && forall l :: l in consumed ==> !LeafUsed(noiseUsed, l)
      {
        assert wanted[..i + 1][..i] == wanted[..i];
        var fine := CheckInput(wanted[i], consumed);
        Joined(consumed, wanted[i]);
        if !fine {
          EarlierRepeats(wanted, i + 1);
          AskedFor(wanted, i);
          return false, [];
        }
        consumed := consumed + wanted[i];
      }
      assert wanted[..|wanted|] == wanted;
      return true, consumed;
    }

    /** The leaf part of signing a transaction: each input is given the leaves derived for it. */
    method Sign(txHash: Digest, kps: seq<Digest>, remaining: nat, writable: bool) returns (r: Result<seq<nat>>)
      requires Valid()
      modifies this
      ensures Valid()
      ensures var leaves := Leaves(Wanted(txHash, kps));
        && r == (if old(Books()).Grants(leaves, |kps|, remaining) && writable then Ok(leaves) else Error)
        && Books() == (if old(Books()).Grants(leaves, |kps|, remaining) then old(Books()).Marked(leaves).Saved(writable)
          else old(Books()))
    {
      hide LeafUsed, NoRepeats, Leaves, OnDisk, Derived;
      var wanted := DeriveAll(txHash, kps);
      if remaining < |kps| { return Error; }
      var fine, consumed := Gather(wanted);
      if !fine { return Error; }
      LeavesInRange(wanted);
      MarkAll(consumed);
      var saved := SaveToFile(writable);
      if !saved { return Error; }
      return Ok(consumed);
    }

    /** What is used as memory has it and as the file has it. */
    ghost function Books(): Book
      reads this
    {
      BookOf(noiseUsed, disk)
    }

    method MarkAll(leaves: seq<nat>)
      requires Valid()
      modifies this`noiseUsed
      ensures Valid() && Books() == old(Books()).Marked(leaves)
    {
      hide LeafUsed;
      for k := 0 to |leaves|
        invariant Valid()
        invariant forall i: nat :: LeafUsed(noiseUsed, i) <==>
          LeafUsed(old(noiseUsed), i) || (i in leaves[..k] && i < LEAF_COUNT)
      {
        MarkNoiseLeafUsed(leaves[k]);
      }
    }
  }

  lemma PaddedBits(used: seq<Byte>, padded: seq<Byte>, j: nat)
    requires |used| <= MAP_BYTES && padded == used + seq(MAP_BYTES - |used|, _ => 0)
    ensures LeafUsed(padded, j) <==> LeafUsed(used, j)
  {
    hide Bit;
    ZeroBits(j % 8);
  }

  lemma BlankBits(used: seq<Byte>, j: nat)
    requires forall k :: 0 <= k < |used| ==> used[k] == 0
    ensures !LeafUsed(used, j)
  {
    hide Bit;
    ZeroBits(j % 8);
  }

  lemma NothingRepeats()
    ensures NoRepeats([])
  {}

  lemma Joined(s: seq<nat>, t: seq<nat>)
    requires NoRepeats(s)
    ensures NoRepeats(s + t) <==> NoRepeats(t) && forall k :: 0 <= k < |t| ==> t[k] !in s
  {
    if NoRepeats(s + t) {
      assert forall i :: 0 <= i < |t| ==> (s + t)[|s| + i] == t[i];
      assert forall i :: 0 <= i < |s| ==> (s + t)[i] == s[i];
    }
  }

  lemma AskedFor(wanted: seq<seq<nat>>, i: nat)
    requires i < |wanted|
    ensures forall k :: 0 <= k < |wanted[i]| ==> wanted[i][k] in Leaves(wanted)
  {
    var first := Leaves(wanted[..i]);
    assert wanted[..i + 1][..i] == wanted[..i];
    EarlierRepeats(wanted, i + 1);
    forall k | 0 <= k < |wanted[i]|
      ensures wanted[i][k] in Leaves(wanted)
    {
      assert Leaves(wanted)[|first| + k] == (first + wanted[i])[|first| + k] == wanted[i][k];
    }
  }

  lemma {:induction false} EarlierRepeats(wanted: seq<seq<nat>>, n: nat)
    requires n <= |wanted|
    ensures Leaves(wanted[..n]) <= Leaves(wanted)
    ensures NoRepeats(Leaves(wanted)) ==> NoRepeats(Leaves(wanted[..n]))
    decreases |wanted| - n
  {
    if n < |wanted| {
      EarlierRepeats(wanted, n + 1);
      assert wanted[..n + 1][..n] == wanted[..n];
    } else {
      assert wanted[..n] == wanted;
    }
  }

  // ---------- Whole histories ----------

  /** Signing, saving for another reason, leaves seen spent on the chain, and the program starting again. */
  datatype Step = Sign(txHash: Digest, kps: seq<Digest>, remaining: nat, writable: bool) | Save(writable: bool)
                | Spent(leaves: seq<nat>, writable: bool) | Restart

  ghost function After(b: Book, step: Step): Book
  {
    match step
    case Sign(txHash, kps, remaining, writable) =>
      var leaves := Leaves(Wanted(txHash, kps));
      if b.Grants(leaves, |kps|, remaining) then b.Marked(leaves).Saved(writable) else b
    case Save(writable) => b.Saved(writable)
    case Spent(leaves, writable) => b.Marked(leaves).Saved(writable)
    case Restart => b.Restarted()
  }

  /** The leaves of the transaction a step lets out, if it lets one out. */
  ghost function Outcome(b: Book, step: Step): Option<seq<nat>>
  {
    match step
    case Sign(txHash, kps, remaining, writable) =>
      var leaves := Leaves(Wanted(txHash, kps));
      if b.Grants(leaves, |kps|, remaining) && writable then Some(leaves) else None
    case _ => None
  }

  ghost function AfterAll(b: Book, steps: seq<Step>): Book
  {
    if steps == [] then b else After(AfterAll(b, steps[..|steps| - 1]), steps[|steps| - 1])
  }

  ghost function Outcomes(b: Book, steps: seq<Step>): (out: seq<Option<seq<nat>>>)
    ensures |out| == |steps|
  {
    if steps == [] then []
    else
      var n := |steps| - 1;
      Outcomes(b, steps[..n]) + [Outcome(AfterAll(b, steps[..n]), steps[n])]
  }

  /** The transactions that were let out, in order. */
  ghost function Signed(outcomes: seq<Option<seq<nat>>>): seq<seq<nat>>
  {
    if outcomes == [] then []
    else
      var n := |outcomes| - 1;
      Signed(outcomes[..n]) + match outcomes[n] case Some(leaves) => [leaves] case None => []
  }

  lemma OneMoreSigned(signed: seq<seq<nat>>, leaves: seq<nat>)
    requires NoRepeats(Leaves(signed)) && NoRepeats(leaves) && forall l :: l in leaves ==> l !in Leaves(signed)
    ensures NoRepeats(Leaves(signed + [leaves]))
    ensures Leaves(signed + [leaves]) == Leaves(signed) + leaves
  {
    assert (signed + [leaves])[..|signed|] == signed;
    Joined(Leaves(signed), leaves);
  }

  /** The leaves derived for any transaction lie within the pool. */
  lemma WantedInRange(txHash: Digest, kps: seq<Digest>)
    ensures forall l :: l in Leaves(Wanted(txHash, kps)) ==> l < LEAF_COUNT
  {
    hide Derived;
    LeavesInRange(Wanted(txHash, kps));
  }

  /**
   Over every history of signing, failed saves and restarts the transactions let out never share a
   leaf, nor use one twice, and every leaf they used is in the file.
   */
  lemma {:induction false} NoLeafTwice(b: Book, steps: seq<Step>)
    requires b.disk <= b.memory
    ensures NoRepeats(Leaves(Signed(Outcomes(b, steps))))
    ensures AfterAll(b, steps).disk <= AfterAll(b, steps).memory
    ensures forall l :: l in Leaves(Signed(Outcomes(b, steps))) ==> l in AfterAll(b, steps).disk
  {
    hide NoRepeats, Leaves, Wanted, Signed;
    if steps == [] {
      NothingSigned();
    } else {
      var n := |steps| - 1;
      NoLeafTwice(b, steps[..n]);
      var c, out := AfterAll(b, steps[..n]), Outcomes(b, steps[..n]);
      FileGrows(c, steps[n]);
      SignedStep(out, Outcome(c, steps[n]));
      if Outcome(c, steps[n]).Some? {
        WantedInRange(steps[n].txHash, steps[n].kps);
        OneMoreSigned(Signed(out), Outcome(c, steps[n]).value);
      }
    }
  }

  /** No step takes a leaf out of the file, and the file never lists one that memory does not. */
  lemma FileGrows(b: Book, step: Step)
    requires b.disk <= b.memory
    ensures b.disk <= After(b, step).disk <= After(b, step).memory
  {
    hide NoRepeats, Leaves, Wanted;
  }

  lemma SignedStep(outcomes: seq<Option<seq<nat>>>, o: Option<seq<nat>>)
    ensures Signed(outcomes + [o]) == if o.Some? then Signed(outcomes) + [o.value] else Signed(outcomes)
  {
    assert (outcomes + [o])[..|outcomes|] == outcomes;
    assert Signed(outcomes) + [] == Signed(outcomes);
  }

  lemma NothingSigned()
    ensures Signed([]) == [] && NoRepeats(Leaves([])) && Leaves([]) == []
  {}

  /** The wallet lives every history as the books say: what each step lets out, and what is used in the end. */
  method History(w: Wallet, steps: seq<Step>) returns (outcomes: seq<Option<seq<nat>>>)
    requires w.Valid()
    modifies w
    ensures w.Valid() && w.Books() == AfterAll(old(w.Books()), steps) && outcomes == Outcomes(old(w.Books()), steps)
    ensures NoRepeats(Leaves(Signed(outcomes))) && forall l :: l in Leaves(Signed(outcomes)) ==> OnDisk(w.disk, l)
  {
    hide LeafUsed, NoRepeats, Leaves, OnDisk, Wanted, Signed;
    outcomes := [];
    ghost var b := w.Books();
    for k := 0 to |steps|
      invariant w.Valid() && w.Books() == AfterAll(b, steps[..k]) && outcomes == Outcomes(b, steps[..k])
    {
      assert steps[..k + 1][..k] == steps[..k];
      var outcome := Option.None;
      match steps[k] {
        case Sign(txHash, kps, remaining, writable) =>
          var r := w.Sign(txHash, kps, remaining, writable);
          if r.Ok? { outcome := Some(r.value); }
        case Save(writable) =>
          var _ := w.SaveToFile(writable);
        case Spent(leaves, writable) =>
          w.MarkAll(leaves);
          var _ := w.SaveToFile(writable);
        case Restart =>
          var _ := w.LoadFromFile();
      }
      outcomes := outcomes + [outcome];
    }
    assert steps[..|steps|] == steps;
    NoLeafTwice(b, steps);
  }
}
