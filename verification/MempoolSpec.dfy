/**
 The pool as a map from transaction hash to entry, the five indexes that must
 agree with it, and the graph of in-pool spends with its closures.
 */
module MempoolSpec {
  import Limbs

  datatype Hash = Hash(bytes: seq<nat>)
  datatype Outpoint = Outpoint(txid: Hash, index: nat)
  datatype Leaf = Leaf(kps: Hash, index: nat)

  /**
   What the pool reads of a transaction. `leaves` are the noise-leaf keys parsed before the
   first malformed proof, `leavesOk` says that there was none.
   */
  datatype Tx = Tx(hash: Hash, inputs: seq<Outpoint>, outputs: nat, leaves: seq<Leaf>, leavesOk: bool,
                   size: nat, valid: bool, coinbase: bool, valueOut: int)

  datatype Entry = Entry(tx: Tx, fee: int, size: nat, feePerK: int, seqNo: nat, entryTime: int, leafKeys: seq<Leaf>)

  type Entries = map<Hash, Entry>

  /** A key of the two ordered indexes: fee rate or entry time first, admission order second. */
  datatype Key = Key(major: int, seqNo: nat)

  predicate Less(a: Key, b: Key)
  {
    a.major < b.major || (a.major == b.major && a.seqNo < b.seqNo)
  }

  function FeeKey(e: Entry): Key { Key(e.feePerK, e.seqNo) }
  function TimeKey(e: Entry): Key { Key(e.entryTime, e.seqNo) }
  function Elements(s: seq<Hash>): set<Hash> { set h | h in s }
  function InputSet(tx: Tx): set<Outpoint> { set op | op in tx.inputs }
  function LeafSet(e: Entry): set<Leaf> { set l | l in e.leafKeys }

  // ---------- What an entry is worth ----------

  const DUST_THRESHOLD: int := 1000
  const INT64_MAX: int := 0x7FFF_FFFF_FFFF_FFFF

  /** The fee rate an entry is ranked by. */
  function FeeRate(fee: int, size: nat): (rate: int)
    requires size > 0 && fee >= 0
    ensures 0 <= rate <= INT64_MAX
    ensures fee <= INT64_MAX / 1000 ==> rate * size <= 1000 * fee < (rate + 1) * size
    ensures fee > INT64_MAX / 1000 <==> rate == INT64_MAX
  {
    if fee > INT64_MAX / 1000 then INT64_MAX
    else
      QuotientFits(fee * 1000, size, 1);
      QuotientBrackets(fee * 1000, size);
      fee * 1000 / size
  }

  lemma QuotientBrackets(x: nat, size: nat)
    requires size > 0
    ensures (x / size) * size <= x < (x / size + 1) * size
  {
    Limbs.DivMod(x, size);
    Limbs.Distribute(x / size, 1, size);
  }

  lemma QuotientFits(x: nat, size: nat, k: nat)
    requires 0 < k <= size
    ensures 0 <= k * (x / size) <= x
  {
    Limbs.DivMod(x, size);
    Limbs.MulMono(k, size, x / size);
  }

  /** e passed the tests of admission and is ranked by its fee rate. */
  predicate Screened(e: Entry)
  {
    && e.tx.valid && !e.tx.coinbase && e.tx.valueOut >= DUST_THRESHOLD
    && e.fee >= 0 && e.size > 0 && e.feePerK == FeeRate(e.fee, e.size)
  }

  // ---------- Agreement of the indexes ----------

  ghost predicate WellKeyed(m: Entries, counter: nat)
  {
    forall h :: h in m ==>
      && m[h].tx.hash == h
      && Screened(m[h])
      && m[h].seqNo <= counter
      && m[h].size == m[h].tx.size
      && m[h].leafKeys == m[h].tx.leaves
  }

  /** Every entry has exactly one fee key and every fee key belongs to exactly one entry. */
  ghost predicate FeeIndexed(m: Entries, index: map<Key, Hash>)
  {
    && (forall h :: h in m ==> FeeKey(m[h]) in index && index[FeeKey(m[h])] == h)
    && (forall k :: k in index ==> index[k] in m && FeeKey(m[index[k]]) == k)
  }

  /** Every entry has exactly one time key and every time key belongs to exactly one entry. */
  ghost predicate TimeIndexed(m: Entries, index: map<Key, Hash>)
  {
    && (forall h :: h in m ==> TimeKey(m[h]) in index && index[TimeKey(m[h])] == h)
    && (forall k :: k in index ==> index[k] in m && TimeKey(m[index[k]]) == k)
  }

  /** An outpoint maps to h iff entry h spends it. */
  ghost predicate SpendsIndexed(m: Entries, spends: map<Outpoint, Hash>)
  {
    && (forall h, op :: h in m && op in m[h].tx.inputs ==> op in spends && spends[op] == h)
    && (forall op :: op in spends ==> spends[op] in m && op in m[spends[op]].tx.inputs)
  }

  /** A leaf maps to h iff entry h consumes it. */
  ghost predicate LeavesIndexed(m: Entries, leaves: map<Leaf, Hash>)
  {
    && (forall h, l :: h in m && l in m[h].leafKeys ==> l in leaves && leaves[l] == h)
    && (forall l :: l in leaves ==> leaves[l] in m && l in m[leaves[l]].leafKeys)
  }

  /** The bytes of all entries. */
  ghost function TotalSize(m: Entries): nat
    decreases |m|
  {
    if m == map[] then 0 else
      var h :| h in m;
      assert |m - {h}| < |m| by { Smaller(m, h); }
      m[h].size + TotalSize(m - {h})
  }

  lemma Smaller(m: Entries, h: Hash)
    requires h in m
    ensures |m - {h}| == |m| - 1
  {
    assert (m - {h}).Keys == m.Keys - {h};
  }

  /** Taking out any one entry takes its size off the total. */
  lemma {:induction false} TotalSizeWithout(m: Entries, h: Hash)
    requires h in m
    ensures TotalSize(m) == m[h].size + TotalSize(m - {h})
    decreases |m|
  {
    var g :| g in m && TotalSize(m) == m[g].size + TotalSize(m - {g});
    if g != h {
      Smaller(m, g);
      TotalSizeWithout(m - {g}, h);
      Smaller(m, h);
      TotalSizeWithout(m - {h}, g);
      assert m - {g} - {h} == m - {h} - {g};
    }
  }

  lemma {:induction false} TotalSizeMono(m: Entries, s: set<Hash>)
    ensures TotalSize(m - s) <= TotalSize(m)
    decreases |m|
  {
    if exists h :: h in m && h in s {
      var h :| h in m && h in s;
      Smaller(m, h);
      TotalSizeWithout(m, h);
      TotalSizeMono(m - {h}, s);
      assert m - {h} - s == m - s;
    } else {
      assert m - s == m;
    }
  }

  /** The pool's fields as one value. */
  datatype Pool = Pool(index: Entries, byFee: map<Key, Hash>, byTime: map<Key, Hash>,
                       spends: map<Outpoint, Hash>, leaves: map<Leaf, Hash>, counter: nat, total: nat)

  /** All indexes and the byte count agree with the entries. */
  ghost predicate Agrees(p: Pool)
  {
    && WellKeyed(p.index, p.counter)
    && FeeIndexed(p.index, p.byFee)
    && TimeIndexed(p.index, p.byTime)
    && SpendsIndexed(p.index, p.spends)
    && LeavesIndexed(p.index, p.leaves)
    && p.total == TotalSize(p.index)
  }

  lemma AgreesParts(p: Pool)
    requires Agrees(p)
    ensures SpendsIndexed(p.index, p.spends) && LeavesIndexed(p.index, p.leaves) && p.total == TotalSize(p.index)
    ensures forall h :: h in p.index ==> Screened(p.index[h])
  {}

  lemma EmptyAgrees(counter: nat)
    ensures Agrees(Pool(map[], map[], map[], map[], map[], counter, 0))
  {}

  /** Erasing entry h from everything. */
  ghost function Without(p: Pool, h: Hash): Pool
    requires Agrees(p) && h in p.index
  {
    TotalSizeWithout(p.index, h);
    var e := p.index[h];
    Pool(p.index - {h}, p.byFee - {FeeKey(e)}, p.byTime - {TimeKey(e)},
         p.spends - InputSet(e.tx), p.leaves - LeafSet(e), p.counter, p.total - e.size)
  }

  lemma WithoutAgrees(p: Pool, h: Hash)
    requires Agrees(p) && h in p.index
    ensures Agrees(Without(p, h))
  {
    hide FeeIndexed, TimeIndexed, SpendsIndexed, LeavesIndexed, TotalSize, Screened, InputSet, LeafSet;
    TotalSizeWithout(p.index, h);
    RemoveSpends(p.index, p.spends, h);
    RemoveLeaves(p.index, p.leaves, h);
    RemoveKeys(p.index, p.byFee, p.byTime, h);
  }

  lemma RemoveKeys(m: Entries, byFee: map<Key, Hash>, byTime: map<Key, Hash>, h: Hash)
    requires FeeIndexed(m, byFee) && TimeIndexed(m, byTime) && h in m
    ensures FeeIndexed(m - {h}, byFee - {FeeKey(m[h])}) && TimeIndexed(m - {h}, byTime - {TimeKey(m[h])})
  {}

  lemma RemoveSpends(m: Entries, spends: map<Outpoint, Hash>, h: Hash)
    requires SpendsIndexed(m, spends) && h in m
    ensures SpendsIndexed(m - {h}, spends - InputSet(m[h].tx))
  {}

  lemma RemoveLeaves(m: Entries, leaves: map<Leaf, Hash>, h: Hash)
    requires LeavesIndexed(m, leaves) && h in m
    ensures LeavesIndexed(m - {h}, leaves - LeafSet(m[h]))
  {}

  /** The index with keys entered for one hash. */
  ghost function Entered<K(!new)>(index: map<K, Hash>, keys: seq<K>, h: Hash): map<K, Hash>
  {
    index + (map k | k in keys :: h)
  }

  lemma EnteredStep<K(!new)>(index: map<K, Hash>, keys: seq<K>, i: nat, h: Hash)
    requires i < |keys|
    ensures Entered(index, keys[..i + 1], h) == Entered(index, keys[..i], h)[keys[i] := h]
  {
    assert keys[..i + 1] == keys[..i] + [keys[i]];
  }

  lemma EnteredEnds<K(!new)>(index: map<K, Hash>, keys: seq<K>, h: Hash)
    ensures Entered(index, keys[..0], h) == index
    ensures Entered(index, keys[..|keys|], h) == Entered(index, keys, h)
  {
    assert keys[..|keys|] == keys;
  }

  /** Entering e, the newest entry so far, into everything. */
  ghost function With(p: Pool, e: Entry): Pool
  {
    var h := e.tx.hash;
    Pool(p.index[h := e], p.byFee[FeeKey(e) := h], p.byTime[TimeKey(e) := h],
         Entered(p.spends, e.tx.inputs, h), Entered(p.leaves, e.leafKeys, h),
         e.seqNo, p.total + e.size)
  }

  lemma WithAgrees(p: Pool, e: Entry)
    requires Agrees(p) && e.tx.hash !in p.index && e.seqNo > p.counter
    requires e.size == e.tx.size && e.leafKeys == e.tx.leaves && Screened(e)
    requires forall op :: op in e.tx.inputs ==> op !in p.spends
    requires forall l :: l in e.leafKeys ==> l !in p.leaves
    ensures Agrees(With(p, e))
  {
    AddSized(p.index, e, p.counter);
    NewKeys(p, e);
    AddSpends(p.index, p.spends, e.tx.hash, e);
    AddLeaves(p.index, p.leaves, e.tx.hash, e);
  }

  lemma AddSized(m: Entries, e: Entry, counter: nat)
    requires WellKeyed(m, counter) && e.tx.hash !in m && e.seqNo > counter
    requires e.size == e.tx.size && e.leafKeys == e.tx.leaves && Screened(e)
    ensures WellKeyed(m[e.tx.hash := e], e.seqNo)
    ensures TotalSize(m[e.tx.hash := e]) == TotalSize(m) + e.size
  {
    TotalSizeWithout(m[e.tx.hash := e], e.tx.hash);
    assert m[e.tx.hash := e] - {e.tx.hash} == m;
  }

  lemma NewKeys(p: Pool, e: Entry)
    requires Agrees(p) && e.tx.hash !in p.index && e.seqNo > p.counter
    ensures FeeIndexed(p.index[e.tx.hash := e], p.byFee[FeeKey(e) := e.tx.hash])
    ensures TimeIndexed(p.index[e.tx.hash := e], p.byTime[TimeKey(e) := e.tx.hash])
  {
    assert FeeKey(e) !in p.byFee && TimeKey(e) !in p.byTime;
  }

  lemma AddSpends(m: Entries, spends: map<Outpoint, Hash>, h: Hash, e: Entry)
    requires SpendsIndexed(m, spends) && h !in m
    requires forall op :: op in e.tx.inputs ==> op !in spends
    ensures SpendsIndexed(m[h := e], Entered(spends, e.tx.inputs, h))
  {}

  lemma AddLeaves(m: Entries, leaves: map<Leaf, Hash>, h: Hash, e: Entry)
    requires LeavesIndexed(m, leaves) && h !in m
    requires forall l :: l in e.leafKeys ==> l !in leaves
    ensures LeavesIndexed(m[h := e], Entered(leaves, e.leafKeys, h))
  {}

  // ---------- The graph of in-pool spends ----------

  /** c spends one of the outputs of h, both in the pool. */
  ghost predicate SpendsOutput(m: Entries, c: Hash, h: Hash)
  {
    c in m && h in m && exists op :: op in m[c].tx.inputs && op.txid == h && op.index < m[h].tx.outputs
  }

  ghost predicate Closed(m: Entries, s: set<Hash>)
  {
    forall h, c :: h in s && SpendsOutput(m, c, h) ==> c in s
  }

  /** The least set that holds the roots and every entry spending an output of a member. */
  ghost function Closure(m: Entries, roots: set<Hash>): set<Hash>
  {
    set h | h in m.Keys + roots && InEvery(m, roots, h)
  }

  ghost predicate InEvery(m: Entries, roots: set<Hash>, h: Hash)
  {
    forall s: set<Hash> :: roots <= s && Closed(m, s) ==> h in s
  }

  lemma ClosureIsLeast(m: Entries, roots: set<Hash>, s: set<Hash>)
    requires roots <= s && Closed(m, s)
    ensures Closure(m, roots) <= s
  {}

  lemma ClosureIsClosed(m: Entries, roots: set<Hash>)
    ensures roots <= Closure(m, roots) && Closed(m, Closure(m, roots))
  {
    var d := Closure(m, roots);
    forall h, c | h in d && SpendsOutput(m, c, h)
      ensures c in d
    {
      forall s: set<Hash> | roots <= s && Closed(m, s)
        ensures c in s
      {
        assert h in s;
      }
    }
  }

  /** A set with the closure's two properties is the closure. */
  lemma ClosureUnique(m: Entries, roots: set<Hash>, d: set<Hash>)
    requires roots <= d && Closed(m, d)
    requires forall h :: h in d ==> h in m.Keys + roots && InEvery(m, roots, h)
    ensures d == Closure(m, roots)
  {
    ClosureIsLeast(m, roots, d);
  }

  /** Removing one closure and then another from what is left removes the closure of both root sets. */
  lemma ClosureInTwoSteps(m: Entries, r: set<Hash>, r': set<Hash>)
    ensures Closure(m, r) + Closure(m - Closure(m, r), r') == Closure(m, r + r')
  {
    var d := Closure(m, r);
    var m' := m - d;
    var d', both := Closure(m', r'), Closure(m, r + r');
    ClosureIsClosed(m, r);
    ClosureIsClosed(m', r');
    ClosureIsClosed(m, r + r');
    assert Closed(m, d + d') by {
      forall h, c | h in d + d' && SpendsOutput(m, c, h)
        ensures c in d + d'
      {
        if h !in d && c !in d { assert SpendsOutput(m', c, h); }
      }
    }
    ClosureIsLeast(m, r + r', d + d');
    ClosureIsLeast(m, r, both);
    assert Closed(m', both) by {
      forall h, c | h in both && SpendsOutput(m', c, h)
        ensures c in both
      {
        assert SpendsOutput(m, c, h);
      }
    }
    ClosureIsLeast(m', r', both);
  }

  /** Roots that lie in each other's closures have the same closure. */
  lemma ClosureSame(m: Entries, r: set<Hash>, r': set<Hash>)
    requires r <= Closure(m, r') && r' <= Closure(m, r)
    ensures Closure(m, r) == Closure(m, r')
  {
    ClosureIsClosed(m, r);
    ClosureIsClosed(m, r');
    ClosureIsLeast(m, r, Closure(m, r'));
    ClosureIsLeast(m, r', Closure(m, r));
  }

  /** A chain of spends from a root to h: each element spends an output of the one before it. */
  ghost predicate SpendChain(m: Entries, roots: set<Hash>, p: seq<Hash>, h: Hash)
  {
    && |p| > 0 && p[0] in roots && p[|p| - 1] == h
    && (forall i :: 0 < i < |p| ==> SpendsOutput(m, p[i], p[i - 1]))
  }

  ghost predicate Reached(m: Entries, roots: set<Hash>, h: Hash)
  {
    exists p :: SpendChain(m, roots, p, h)
  }

  /** h is in the closure exactly when a chain of spends leads to it from a root. */
  lemma ClosureIsReachability(m: Entries, roots: set<Hash>, h: Hash)
    ensures h in Closure(m, roots) <==> Reached(m, roots, h)
  {
    ClosureIsClosed(m, roots);
    if p :| SpendChain(m, roots, p, h) {
      ChainStays(m, roots, p, h, |p| - 1);
    }
    var reached := set g | g in Closure(m, roots) && Reached(m, roots, g);
    forall r | r in roots
      ensures r in reached
    {
      assert SpendChain(m, roots, [r], r);
    }
    forall g, c | g in reached && SpendsOutput(m, c, g)
      ensures c in reached
    {
      ExtendChain(m, roots, g, c);
    }
    ClosureIsLeast(m, roots, reached);
  }

  lemma ExtendChain(m: Entries, roots: set<Hash>, g: Hash, c: Hash)
    requires Reached(m, roots, g) && SpendsOutput(m, c, g)
    ensures Reached(m, roots, c)
  {
    var p :| SpendChain(m, roots, p, g);
    assert SpendChain(m, roots, p + [c], c);
  }

  lemma {:induction false} ChainStays(m: Entries, roots: set<Hash>, p: seq<Hash>, h: Hash, i: nat)
    requires i < |p| && SpendChain(m, roots, p, h)
    ensures p[i] in Closure(m, roots)
  {
    ClosureIsClosed(m, roots);
    if i > 0 {
      ChainStays(m, roots, p, h, i - 1);
      assert SpendsOutput(m, p[i], p[i - 1]);
    }
  }
}
