/** What each pool operation is meant to do to the entries. */
module MempoolRules {
  import Limbs
  import opened MempoolSpec

  const MEMPOOL_EXPIRY_SECONDS: int := 336 * 3600
  const INCREMENTAL_FEE_PER_K: int := 1000
  const MAX_ANCESTORS: nat := 25
  const MAX_DESCENDANTS: nat := 25

  // ---------- Expiry ----------

  /** The entries young enough to stay. */
  ghost function Unexpired(m: Entries, now: int): Entries
  {
    map h | h in m && m[h].entryTime >= now - MEMPOOL_EXPIRY_SECONDS :: m[h]
  }

  // ---------- Trimming ----------

  ghost predicate IsCheapest(m: Entries, h: Hash)
  {
    h in m && forall g :: g in m ==> g == h || Less(FeeKey(m[h]), FeeKey(m[g]))
  }

  /** The pool after evicting each victim with all its descendants, in order. */
  ghost function After(m: Entries, victims: seq<Hash>): Entries
  {
    if victims == [] then m else
      var before := After(m, victims[..|victims| - 1]);
      before - Closure(before, {victims[|victims| - 1]})
  }

  /** Each victim was the cheapest entry of a pool over budget. */
  ghost predicate Evictions(m: Entries, max: nat, victims: seq<Hash>)
  {
    forall i :: 0 <= i < |victims| ==> Eviction(After(m, victims[..i]), max, victims[i])
  }

  ghost predicate Eviction(m: Entries, max: nat, v: Hash)
  {
    TotalSize(m) > max && IsCheapest(m, v)
  }

  lemma OneMoreEviction(m: Entries, max: nat, victims: seq<Hash>, v: Hash)
    requires Evictions(m, max, victims) && Eviction(After(m, victims), max, v)
    ensures Evictions(m, max, victims + [v])
    ensures After(m, victims + [v]) == After(m, victims) - Closure(After(m, victims), {v})
  {
    var more := victims + [v];
    assert more[..|victims|] == victims;
    forall i | 0 <= i < |more|
      ensures Eviction(After(m, more[..i]), max, more[i])
    {
      if i < |victims| {
        assert more[..i] == victims[..i] && more[i] == victims[i];
        assert Eviction(After(m, victims[..i]), max, victims[i]);
      }
    }
  }

  /** Evictions take out exactly the closure of their victims ... */
  lemma {:induction false} EvictionsRemoveClosure(m: Entries, victims: seq<Hash>)
    ensures After(m, victims) == m - Closure(m, Elements(victims))
  {
    if victims == [] {
      ClosureIsLeast(m, Elements(victims), {});
    } else {
      var n := |victims| - 1;
      var before, last := Elements(victims[..n]), {victims[n]};
      EvictionsRemoveClosure(m, victims[..n]);
      ClosureInTwoSteps(m, before, last);
      assert before + last == Elements(victims);
      RemovedTwice(m, Closure(m, before), Closure(m - Closure(m, before), last));
    }
  }

  lemma RemovedTwice(m: Entries, d: set<Hash>, d': set<Hash>)
    ensures m - d - d' == m - (d + d')
  {}

  /** ... and every survivor pays more than every victim did. */
  lemma SurvivorsPayMore(m: Entries, max: nat, victims: seq<Hash>, i: nat, h: Hash)
    requires Evictions(m, max, victims) && i < |victims| && h in After(m, victims)
    ensures h in m && After(m, victims)[h] == m[h]
    ensures victims[i] in m && Less(FeeKey(m[victims[i]]), FeeKey(m[h]))
    ensures Screened(m[victims[i]]) && Screened(m[h]) ==> PaysNoMore(m[victims[i]], m[h])
  {
    assert Eviction(After(m, victims[..i]), max, victims[i]);
    hide Closure, After, Evictions, Closed;
    EvictionsRemoveClosure(m, victims);
    EvictionsRemoveClosure(m, victims[..i]);
    ClosureIsClosed(m, Elements(victims));
    ClosureGrows(m, Elements(victims[..i]), Elements(victims));
    var earlier := After(m, victims[..i]);
    assert victims[i] in Elements(victims) && h in earlier;
    assert earlier[h] == m[h] && earlier[victims[i]] == m[victims[i]];
    hide PaysNoMore, FeeRate, Screened;
    if Screened(m[victims[i]]) && Screened(m[h]) { RankMeans(m[victims[i]], m[h]); }
  }

  lemma ClosureGrows(m: Entries, r: set<Hash>, r': set<Hash>)
    requires r <= r'
    ensures Closure(m, r) <= Closure(m, r')
  {
    ClosureIsClosed(m, r');
    ClosureIsLeast(m, r, Closure(m, r'));
  }

  // ---------- Ancestors ----------

  /** p is an in-pool transaction that c takes an input from. */
  ghost predicate IsParent(m: Entries, inputs: seq<Outpoint>, p: Hash)
  {
    p in m && exists op :: op in inputs && op.txid == p
  }

  ghost predicate AncestorClosed(m: Entries, s: set<Hash>)
  {
    forall h, p :: h in s && h in m && IsParent(m, m[h].tx.inputs, p) ==> p in s
  }

  ghost predicate HoldsParents(m: Entries, tx: Tx, s: set<Hash>)
  {
    forall p :: IsParent(m, tx.inputs, p) ==> p in s
  }

  ghost predicate InEveryAncestry(m: Entries, tx: Tx, h: Hash)
  {
    forall s: set<Hash> :: HoldsParents(m, tx, s) && AncestorClosed(m, s) ==> h in s
  }

  /** The in-pool transactions tx would sit on top of. */
  ghost function Ancestors(m: Entries, tx: Tx): set<Hash>
  {
    set h | h in m.Keys && InEveryAncestry(m, tx, h)
  }

  lemma AncestorsUnique(m: Entries, tx: Tx, d: set<Hash>)
    requires d <= m.Keys && HoldsParents(m, tx, d) && AncestorClosed(m, d)
    requires forall h :: h in d ==> InEveryAncestry(m, tx, h)
    ensures d == Ancestors(m, tx)
  {}

  // ---------- Rolling minimum fee rate ----------

  /** Nearest integer of a non-negative rate. */
  function Rounded(x: real): (r: int)
    ensures -0.5 < r as real - x <= 0.5
  {
    (x + 0.5).Floor
  }

  /** The rolling rate, when it was last set, and whether a block has followed the last bump. */
  datatype Rolling = Rolling(rate: real, last: int, blockSeen: bool)

  /**
   The rolling rate once the time since the last update is accounted for; `left` is what the exponential leaves
   of it.
   */
  function Decayed(r: Rolling, now: int, left: real): Rolling
  {
    if !r.blockSeen || r.rate == 0.0 || now <= r.last + 10 then r
    else Rolling(if left < INCREMENTAL_FEE_PER_K as real / 2.0 then 0.0 else left, now, true)
  }

  /** The sum of a rate and one increment, which wraps around at the top of the signed 64-bit range. */
  function OneMore(rate: int): int
  {
    var sum := rate + INCREMENTAL_FEE_PER_K;
    if sum > INT64_MAX then sum - 0x1_0000_0000_0000_0000 else sum
  }

  /** The rolling rate raised above an evicted one. */
  function Bumped(r: Rolling, evicted: int, now: int): Rolling
  {
    var bumped := OneMore(evicted) as real;
    if bumped > r.rate then Rolling(bumped, now, false) else r
  }

  /** ... and above the rates of all victims in turn. */
  ghost function Bumps(r: Rolling, m: Entries, victims: seq<Hash>, now: int): Rolling
  {
    if victims == [] then r
    else
      var before, v := Bumps(r, m, victims[..|victims| - 1], now), victims[|victims| - 1];
      if v in m then Bumped(before, m[v].feePerK, now) else before
  }

  /** The rate asked of a newcomer: nothing, or at least one increment. */
  function MinRate(rate: real): (asked: int)
    ensures rate == 0.0 ==> asked == 0
    ensures rate != 0.0 ==> asked >= 1000 && (rate >= 1000.0 ==> -0.5 < asked as real - rate <= 0.5)
    ensures 0.0 != rate < 1000.0 ==> asked == 1000
  {
    if rate == 0.0 then 0
    else if Rounded(rate) < INCREMENTAL_FEE_PER_K then INCREMENTAL_FEE_PER_K
    else Rounded(rate)
  }

  /**
   What every reachable rolling rate is: zero or half an increment, a whole one while no block has followed the
   last bump.
   */
  ghost predicate SoundRate(r: Rolling)
  {
    && r.rate <= INT64_MAX as real
    && (r.rate == 0.0
      || r.rate >= (if r.blockSeen then INCREMENTAL_FEE_PER_K as real / 2.0 else INCREMENTAL_FEE_PER_K as real))
  }

  lemma MinRateFits(rate: real)
    requires 0.0 <= rate <= INT64_MAX as real
    ensures 0 <= MinRate(rate) <= INT64_MAX
  {}

  lemma MinRateMono(low: real, high: real)
    requires 0.0 <= low <= high
    ensures MinRate(low) <= MinRate(high)
  {}

  /** Time only lowers the rolling rate, and keeps it sound. */
  lemma DecayLowers(r: Rolling, now: int, left: real)
    requires SoundRate(r) && 0.0 <= left <= r.rate
    ensures 0.0 <= Decayed(r, now, left).rate <= r.rate && SoundRate(Decayed(r, now, left))
    ensures MinRate(Decayed(r, now, left).rate) <= MinRate(r.rate)
  {
    MinRateMono(Decayed(r, now, left).rate, r.rate);
  }

  /** An eviction at this rate can be answered by one increment more without leaving the signed 64-bit range. */
  predicate Bumpable(rate: int) { rate + INCREMENTAL_FEE_PER_K <= INT64_MAX }

  /** For every transaction of more than one byte this is a bound on its fee alone. */
  lemma BumpableExactly(fee: int, size: nat)
    requires fee >= 0 && size > 1
    ensures Bumpable(FeeRate(fee, size)) <==> fee <= INT64_MAX / 1000
  {
    if fee <= INT64_MAX / 1000 { QuotientFits(fee * 1000, size, 2); }
  }

  // ---------- Admission ----------

  ghost predicate NoConflict(m: Entries, tx: Tx)
  {
    && (forall h, op :: h in m && op in tx.inputs ==> op !in m[h].tx.inputs)
    && (forall h, l :: h in m && l in tx.leaves ==> l !in m[h].leafKeys)
    && (forall i, j :: 0 <= j < i < |tx.leaves| ==> tx.leaves[j] != tx.leaves[i])
  }

  ghost predicate WithinChainLimits(m: Entries, tx: Tx)
  {
    && |Ancestors(m, tx)| + 1 <= MAX_ANCESTORS
    && (forall p :: IsParent(m, tx.inputs, p) ==> |Closure(m, {p})| + 1 <= MAX_DESCENDANTS)
  }

  /** The transaction comes as far as the test of its fee rate. */
  ghost predicate Presentable(m: Entries, tx: Tx, fee: int)
  {
    && tx.valid && !tx.coinbase && fee >= 0 && tx.hash !in m && tx.valueOut >= DUST_THRESHOLD
    && NoConflict(m, tx)
    && tx.size > 0
  }

  /** At least the rate for every thousand bytes; a fee of more than INT64_MAX / 1000 is always enough. */
  ghost predicate PaysRate(fee: int, size: nat, rate: int)
  {
    fee > INT64_MAX / 1000 || 1000 * fee >= rate * size
  }

  ghost predicate Admissible(m: Entries, tx: Tx, fee: int, minRate: int)
  {
    Presentable(m, tx, fee) && PaysRate(fee, tx.size, minRate) && WithinChainLimits(m, tx)
  }

  /** The comparison of whole rates decides it. */
  lemma RateMeets(fee: int, size: nat, minRate: int)
    requires fee >= 0 && size > 0 && minRate <= INT64_MAX
    ensures FeeRate(fee, size) >= minRate <==> PaysRate(fee, size, minRate)
  {
    var rate := FeeRate(fee, size);
    hide FeeRate;
    if rate >= minRate { Limbs.MulMono(minRate, rate, size); } else { Limbs.MulMono(rate + 1, minRate, size); }
  }

  /** Per byte, a pays at most a thousandth more than b; fees of more than INT64_MAX / 1000 stand above all others. */
  ghost predicate PaysNoMore(a: Entry, b: Entry)
  {
    && (a.fee > INT64_MAX / 1000 ==> b.fee > INT64_MAX / 1000)
    && (b.fee <= INT64_MAX / 1000 ==> 1000 * a.fee * b.size < (1000 * b.fee + b.size) * a.size)
  }

  /** Per byte, a pays less than b. */
  ghost predicate PaysLess(a: Entry, b: Entry)
  {
    a.fee <= INT64_MAX / 1000 && (b.fee <= INT64_MAX / 1000 ==> a.fee * b.size < b.fee * a.size)
  }

  /** What the order by fee rate means for fees and sizes. */
  lemma RankMeans(a: Entry, b: Entry)
    requires Screened(a) && Screened(b)
    ensures a.feePerK <= b.feePerK ==> PaysNoMore(a, b)
    ensures a.feePerK < b.feePerK ==> PaysLess(a, b)
  {
    hide FeeRate;
    if a.feePerK <= b.feePerK && b.fee <= INT64_MAX / 1000 {
      Brackets(a.fee, a.size, a.feePerK, b.fee, b.size, b.feePerK);
    }
  }

  lemma Brackets(f: nat, s: nat, r: nat, g: nat, t: nat, q: nat)
    requires s > 0 && t > 0 && 1000 * f < (r + 1) * s && q * t <= 1000 * g
    ensures r <= q ==> 1000 * f * t < (1000 * g + t) * s
    ensures r < q ==> f * t < g * s
  {
    Crossed(f, s, r, g, t, q, s * t);
    Ordered(r, q, s * t);
    Limbs.Distribute(1000 * g, t, s);
    Limbs.MulAssoc(1000, f, t);
    Limbs.MulAssoc(1000, g, s);
  }

  lemma Crossed(f: nat, s: nat, r: nat, g: nat, t: nat, q: nat, u: nat)
    requires s > 0 && t > 0 && 1000 * f < (r + 1) * s && q * t <= 1000 * g && u == s * t
    ensures 1000 * f * t < (r + 1) * u && q * u <= 1000 * g * s
  {
    Strictly(1000 * f, (r + 1) * s, t);
    Limbs.MulMono(q * t, 1000 * g, s);
    Limbs.MulAssoc(r + 1, s, t);
    Limbs.MulAssoc(q, t, s);
  }

  lemma Ordered(r: nat, q: nat, u: nat)
    ensures r <= q ==> (r + 1) * u <= q * u + u
    ensures r < q ==> (r + 1) * u <= q * u
  {
    if r <= q {
      Limbs.MulMono(r + 1, q + 1, u);
      Limbs.Distribute(q, 1, u);
    }
    if r < q { Limbs.MulMono(r + 1, q, u); }
  }

  lemma Strictly(a: int, b: int, c: int)
    requires a < b && c > 0
    ensures a * c < b * c
  {
    Limbs.MulMono(a, b - 1, c);
    Limbs.Distribute(b, -1, c);
  }

  function EntryOf(tx: Tx, fee: int, seqNo: nat, now: int): Entry
    requires tx.size > 0 && fee >= 0
  {
    Entry(tx, fee, tx.size, FeeRate(fee, tx.size), seqNo, now, tx.leaves)
  }

  // ---------- Blocks ----------

  /** h spends an outpoint the transaction spends, or consumes a leaf of it when its proofs parse. */
  ghost predicate ConflictsWith(m: Entries, h: Hash, tx: Tx)
  {
    && h in m
    && (|| (exists op :: op in tx.inputs && op in m[h].tx.inputs)
        || (tx.leavesOk && exists l :: l in tx.leaves && l in m[h].leafKeys))
  }

  /** What a block throws out directly: its own transactions and every entry in conflict with one. */
  ghost function BlockRoots(m: Entries, txs: seq<Tx>): set<Hash>
  {
    (set i | 0 <= i < |txs| && !txs[i].coinbase :: txs[i].hash)
    + (set h | h in m && exists i :: 0 <= i < |txs| && !txs[i].coinbase && ConflictsWith(m, h, txs[i]))
  }

  /** After a block nothing left is a block transaction or conflicts with one, or spends something thrown out. */
  lemma AfterBlock(m: Entries, txs: seq<Tx>, result: Entries, h: Hash)
    requires result == m - Closure(m, BlockRoots(m, txs)) && h in result
    ensures forall i :: 0 <= i < |txs| && !txs[i].coinbase ==> txs[i].hash != h && !ConflictsWith(result, h, txs[i])
    ensures forall g :: SpendsOutput(m, h, g) ==> g in result
  {
    ClosureIsClosed(m, BlockRoots(m, txs));
    forall i | 0 <= i < |txs| && !txs[i].coinbase
      ensures txs[i].hash != h && !ConflictsWith(result, h, txs[i])
    {
      assert txs[i].hash in BlockRoots(m, txs);
    }
  }
}
