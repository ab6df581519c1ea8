/**
 The transaction pool: one map of entries and five indexes updated in place by
 admission, expiry, trimming, removal and block connection.
 */
module Mempool {
  import opened Common
  import opened MempoolRules
  import opened MempoolSpec

  /** The first key of an ordered map. */
  method FirstKey(index: map<Key, Hash>) returns (k: Key)
    requires index != map[]
    ensures k in index && forall k' :: k' in index ==> k' == k || Less(k, k')
  {
    var rest := index.Keys;
    k :| k in rest;
    rest := rest - {k};
    while rest != {}
      invariant rest <= index.Keys && k in index && k !in rest
      invariant forall k' :: k' in index && k' !in rest ==> k' == k || Less(k, k')
      decreases rest
    {
      var c :| c in rest;
      rest := rest - {c};
      if Less(c, k) { k := c; }
    }
  }

  /** The last key of an ordered map. */
  method LastKey(index: map<Key, Hash>) returns (k: Key)
    requires index != map[]
    ensures k in index && forall k' :: k' in index ==> k' == k || Less(k', k)
  {
    var rest := index.Keys;
    k :| k in rest;
    rest := rest - {k};
    while rest != {}
      invariant rest <= index.Keys && k in index && k !in rest
      invariant forall k' :: k' in index && k' !in rest ==> k' == k || Less(k', k)
      decreases rest
    {
      var c :| c in rest;
      rest := rest - {c};
      if Less(k, c) { k := c; }
    }
  }

  /** A public call. */
  datatype Call =
    | Add(tx: Tx, fee: int, now: int, decayed: real)
    | Remove(txHash: Hash)
    | Connect(blockTxs: seq<Tx>)
    | Query(at: int, left: real)
    | Reset

  class Mempool {
    var mIndex: map<Hash, Entry>
    var mByFeeRate: map<Key, Hash>
    var mByTime: map<Key, Hash>
    var mSpends: map<Outpoint, Hash>
    var mLeafSpends: map<Leaf, Hash>
    var mSequenceCounter: nat
    var mTotalBytes: nat
    const mMaxBytes: nat
    var mRollingMinFeeRate: real
    var mLastRollingFeeUpdate: int
    var mBlockSinceFeeBump: bool

    /** The fields as one value. */
    ghost function View(): Pool
      reads this
    {
      Pool(mIndex, mByFeeRate, mByTime, mSpends, mLeafSpends, mSequenceCounter, mTotalBytes)
    }

    ghost function Roll(): Rolling
      reads this
    {
      Rolling(mRollingMinFeeRate, mLastRollingFeeUpdate, mBlockSinceFeeBump)
    }

    /** What a run of calls works on; the other fields follow from it. */
    ghost function Now(): State
      reads this
    {
      State(mIndex, mSequenceCounter, Roll())
    }

    /** The indexes agree with the entries. Holds between any two internal steps. */
    ghost predicate Consistent()
      reads this
    {
      Agrees(View())
    }

    /** Consistent and within the byte budget. Holds between any two calls. */
    ghost predicate Valid()
      reads this
    {
      Consistent() && mTotalBytes <= mMaxBytes && SoundRate(Roll())
    }

    constructor (maxBytes: nat)
      ensures Valid() && mIndex == map[] && mMaxBytes == maxBytes
    {
      mIndex, mByFeeRate, mByTime, mSpends, mLeafSpends := map[], map[], map[], map[], map[];
      mSequenceCounter, mTotalBytes, mMaxBytes := 0, 0, maxBytes;
      mRollingMinFeeRate, mLastRollingFeeUpdate, mBlockSinceFeeBump := 0.0, 0, false;
    }

    // ---------- Removal ----------

    method RemoveLocked(h: Hash) returns (removed: bool)
      requires Consistent()
      modifies `mIndex, `mByFeeRate, `mByTime, `mSpends, `mLeafSpends, `mTotalBytes
      ensures Consistent()
      ensures mIndex == old(mIndex) - {h}
      ensures removed == (h in old(mIndex))
    {
      hide Agrees;
      if h !in mIndex {
        assert mIndex - {h} == mIndex;
        return false;
      }
      var e := mIndex[h];
      WithoutAgrees(View(), h);
      TotalSizeWithout(mIndex, h);
      mByFeeRate := mByFeeRate - {FeeKey(e)};
      mByTime := mByTime - {TimeKey(e)};
      EraseSpends(e.tx);
      EraseLeaves(e);
      mTotalBytes := mTotalBytes - e.size;
      mIndex := mIndex - {h};
      assert View() == Without(old(View()), h);
      return true;
    }

    method EraseSpends(tx: Tx)
      modifies `mSpends
      ensures mSpends == old(mSpends) - InputSet(tx)
    {
      for i := 0 to |tx.inputs|
        invariant mSpends == old(mSpends) - set op | op in tx.inputs[..i]
      {
        mSpends := mSpends - {tx.inputs[i]};
        assert tx.inputs[..i + 1] == tx.inputs[..i] + [tx.inputs[i]];
      }
      assert tx.inputs[..|tx.inputs|] == tx.inputs;
    }

    method EraseLeaves(e: Entry)
      modifies `mLeafSpends
      ensures mLeafSpends == old(mLeafSpends) - LeafSet(e)
    {
      for i := 0 to |e.leafKeys|
        invariant mLeafSpends == old(mLeafSpends) - set l | l in e.leafKeys[..i]
      {
        mLeafSpends := mLeafSpends - {e.leafKeys[i]};
        assert e.leafKeys[..i + 1] == e.leafKeys[..i] + [e.leafKeys[i]];
      }
      assert e.leafKeys[..|e.leafKeys|] == e.leafKeys;
    }

    method CollectDescendantsLocked(root: Hash) returns (out: seq<Hash>)
      requires Consistent()
      ensures forall i, j :: 0 <= i < j < |out| ==> out[i] != out[j]
      ensures Elements(out) == Closure(mIndex, {root}) && |out| > 0 && out[0] == root
    {
      out := Descendants(mIndex, mSpends, root);
    }

    method RemoveRecursiveLocked(root: Hash) returns (removed: nat)
      requires Consistent()
      modifies `mIndex, `mByFeeRate, `mByTime, `mSpends, `mLeafSpends, `mTotalBytes
      ensures Consistent()
      ensures mIndex == old(mIndex) - Closure(old(mIndex), {root})
      ensures removed == |old(mIndex)| - |mIndex|
    {
      hide Agrees, Closure;
      var doomed := CollectDescendantsLocked(root);
      removed := 0;
      var i := |doomed|;
      while i > 0
        invariant 0 <= i <= |doomed| && Consistent()
        invariant mIndex == old(mIndex) - Elements(doomed[i..])
        invariant removed == |old(mIndex)| - |mIndex|
      {
        i := i - 1;
        RemoveNext(old(mIndex), doomed, i, mIndex);
        var gone := RemoveLocked(doomed[i]);
        if gone { removed := removed + 1; }
      }
      assert doomed[0..] == doomed;
    }

    method RemoveTransaction(txHash: Hash) returns (removed: bool)
      requires Valid()
      modifies this
      ensures Valid()
      ensures Now() == State(old(mIndex) - {txHash}, old(mSequenceCounter), old(Roll()))
      ensures removed == (txHash in old(mIndex))
    {
      TotalSizeMono(mIndex, {txHash});
      removed := RemoveLocked(txHash);
    }

    method Clear()
      requires Valid()
      modifies this
      ensures Valid() && Now() == State(map[], old(mSequenceCounter), old(Roll()))
    {
      hide Agrees;
      EmptyAgrees(mSequenceCounter);
      mIndex, mByFeeRate, mByTime, mSpends, mLeafSpends := map[], map[], map[], map[], map[];
      mTotalBytes := 0;
    }

    // ---------- Runs and queries ----------

    /**
     Every run of calls passes through states each of which follows from the one before by its call. It keeps the
     indexes in agreement, the budget, every outpoint and leaf with at most one entry, and only entries that passed
     admission. A rate asked is nothing or at least one increment, and never rises from one query to a later one
     unless something was evicted between them.
     */
    method Run(calls: seq<Call>) returns (answers: seq<int>, ghost evicted: seq<seq<Hash>>, ghost states: seq<State>)
      requires Valid()
      modifies this
      ensures Valid()
      ensures forall h, g :: h in mIndex && g in mIndex && h != g ==> Disjoint(mIndex[h], mIndex[g])
      ensures forall h :: h in mIndex ==> Screened(mIndex[h])
      ensures TotalSize(mIndex) <= mMaxBytes
      ensures |answers| == |evicted| == |calls| == |states| - 1 && states[0] == old(Now()) && states[|calls|] == Now()
      ensures forall i :: 0 <= i < |calls| ==>
        Follows(states[i], calls[i], mMaxBytes, answers[i], evicted[i], states[i + 1])
      ensures forall i :: 0 <= i < |calls| && calls[i].Query? ==> answers[i] == 0 || answers[i] >= INCREMENTAL_FEE_PER_K
      ensures forall i, j :: 0 <= i < j < |calls| && calls[i].Query? && calls[j].Query? && Quiet(evicted, i, j) ==>
        answers[j] <= answers[i]
    {
      hide Agrees, MinRate, SoundRate, Follows;
      answers, evicted, states := [], [], [Now()];
      for i := 0 to |calls|
        invariant Valid() && |answers| == |evicted| == i
        invariant |states| == i + 1 && states[0] == old(Now()) && states[i] == Now()
        invariant forall k :: 0 <= k < i ==>
          Follows(states[k], calls[k], mMaxBytes, answers[k], evicted[k], states[k + 1])
        invariant Answered(calls, answers, evicted, MinRate(mRollingMinFeeRate))
      {
        ghost var before := mRollingMinFeeRate;
        var answer, victims := Step(calls[i]);
        AnswerStep(calls, answers, evicted, MinRate(before), answer, victims, MinRate(mRollingMinFeeRate));
        answers, evicted, states := answers + [answer], evicted + [victims], states + [Now()];
      }
      AgreesParts(View());
      NothingShared(View());
    }

    /** One call; a query's answer is the rate it leaves in force. */
    method Step(call: Call) returns (answer: int, ghost victims: seq<Hash>)
      requires Valid()
      modifies this
      ensures Valid() && Follows(old(Now()), call, mMaxBytes, answer, victims, Now())
      ensures call.Query? ==> victims == [] && answer == MinRate(mRollingMinFeeRate)
      ensures victims == [] ==> MinRate(mRollingMinFeeRate) <= MinRate(old(mRollingMinFeeRate))
    {
      hide Agrees, MinRate, Closure, Unexpired, Evictions, After;
      hide Decayed, Admissible, Presentable, BlockRoots, Repriced;
      answer, victims := 0, [];
      match call
      case Add(tx, fee, now, decayed) =>
        var ok;
        ok, victims := AddTransaction(tx, fee, now, Within(decayed, mRollingMinFeeRate));
        if victims == [] { MinRateMono(mRollingMinFeeRate, old(mRollingMinFeeRate)); }
      case Remove(txHash) =>
        var gone := RemoveTransaction(txHash);
      case Connect(blockTxs) =>
        RemoveForBlock(blockTxs);
      case Query(at, left) =>
        DecayLowers(Roll(), at, Within(left, mRollingMinFeeRate));
        answer := GetMinFeeRate(at, Within(left, mRollingMinFeeRate));
      case Reset =>
        Clear();
    }

    /**
     The best-paying transactions, best first; ties go to the later admission. No transaction pays a thousandth
     per byte more than one listed before it, and none left out does than one listed.
     */
    method GetTransactions(maxCount: nat) returns (out: seq<Tx>)
      requires Valid()
      ensures |out| == if maxCount < |mIndex| then maxCount else |mIndex|
      ensures forall i :: 0 <= i < |out| ==> out[i].hash in mIndex && mIndex[out[i].hash].tx == out[i]
      ensures forall i, j :: 0 <= i < j < |out| ==>
        Less(FeeKey(mIndex[out[j].hash]), FeeKey(mIndex[out[i].hash]))
      ensures forall h, i :: h in mIndex && mIndex[h].tx !in out && 0 <= i < |out| ==>
        Less(FeeKey(mIndex[h]), FeeKey(mIndex[out[i].hash]))
      ensures forall i, j :: 0 <= i < j < |out| ==> PaysNoMore(mIndex[out[j].hash], mIndex[out[i].hash])
      ensures forall h, i :: h in mIndex && mIndex[h].tx !in out && 0 <= i < |out| ==>
        PaysNoMore(mIndex[h], mIndex[out[i].hash])
    {
      AgreesParts(View());
      out := BestFirst(mIndex, mByFeeRate, maxCount, mSequenceCounter);
      hide Agrees, PaysNoMore, PaysLess, Screened;
      forall i, j | 0 <= i < j < |out|
        ensures PaysNoMore(mIndex[out[j].hash], mIndex[out[i].hash])
      {
        RankMeans(mIndex[out[j].hash], mIndex[out[i].hash]);
      }
      forall h, i | h in mIndex && mIndex[h].tx !in out && 0 <= i < |out|
        ensures PaysNoMore(mIndex[h], mIndex[out[i].hash])
      {
        RankMeans(mIndex[h], mIndex[out[i].hash]);
      }
    }

    // ---------- Blocks ----------

    /**
     A connected block throws out exactly its own transactions, what conflicts with them, and all that builds on
     those.
     */
    method RemoveForBlock(blockTxs: seq<Tx>)
      requires Valid()
      modifies this
      ensures Valid()
      ensures mIndex == old(mIndex) - Closure(old(mIndex), BlockRoots(old(mIndex), blockTxs))
      ensures mSequenceCounter == old(mSequenceCounter) && Roll() == old(Roll()).(blockSeen := true)
    {
      hide Agrees, Closure, BlockRoots, ConflictsWith;
      ghost var m, roots := mIndex, {};
      AgreesParts(View());
      NoRoots(m);
      for i := 0 to |blockTxs|
        invariant Consistent() && mIndex == m - Closure(m, roots)
        invariant mSequenceCounter == old(mSequenceCounter) && Roll() == old(Roll())
        invariant forall r :: r in roots ==> Condemned(m, blockTxs, r)
        invariant forall k :: 0 <= k < i ==> Settled(mIndex, roots, blockTxs[k])
      {
        if !blockTxs[i].coinbase {
          ghost var before, was := mIndex, roots;
          roots := RemoveConflicting(blockTxs[i], m, roots);
          forall k | 0 <= k < i
            ensures Settled(mIndex, roots, blockTxs[k])
          {
            StaysSettled(before, was, mIndex, roots, blockTxs[k]);
          }
        }
      }
      RootsSettled(m, blockTxs, roots, mIndex);
      TotalSizeMono(m, Closure(m, roots));
      AgreesParts(View());
      mBlockSinceFeeBump := true;
    }

    /** One block transaction: itself, then whoever spends its inputs, then whoever uses its leaves. */
    method RemoveConflicting(tx: Tx, ghost m: Entries, ghost roots: set<Hash>) returns (ghost more: set<Hash>)
      requires Consistent() && mIndex == m - Closure(m, roots)
      modifies `mIndex, `mByFeeRate, `mByTime, `mSpends, `mLeafSpends, `mTotalBytes
      ensures Consistent() && mIndex == m - Closure(m, more)
      ensures roots <= more && mIndex.Keys <= old(mIndex).Keys
      ensures forall r :: r in more ==> r in roots || r == tx.hash || ConflictsWith(m, r, tx)
      ensures Settled(mIndex, more, tx)
    {
      hide Agrees, Closure, ConflictsWith;
      more := Drop(tx.hash, m, roots);
      for k := 0 to |tx.inputs|
        invariant Consistent() && mIndex == m - Closure(m, more) && mIndex.Keys <= old(mIndex).Keys
        invariant roots <= more && tx.hash in more
        invariant forall r :: r in more ==> r in roots || r == tx.hash || ConflictsWith(m, r, tx)
        invariant forall j :: 0 <= j < k ==> Unspent(mIndex, tx.inputs[j])
      {
        SpenderOf(View(), tx, k, m);
        if tx.inputs[k] in mSpends {
          more := Drop(mSpends[tx.inputs[k]], m, more);
        }
      }
      if tx.leavesOk {
        for k := 0 to |tx.leaves|
          invariant Consistent() && mIndex == m - Closure(m, more) && mIndex.Keys <= old(mIndex).Keys
          invariant roots <= more && tx.hash in more
          invariant forall r :: r in more ==> r in roots || r == tx.hash || ConflictsWith(m, r, tx)
          invariant forall j :: 0 <= j < |tx.inputs| ==> Unspent(mIndex, tx.inputs[j])
          invariant forall j :: 0 <= j < k ==> Unused(mIndex, tx.leaves[j])
        {
          ConsumerOf(View(), tx, k, m);
          if tx.leaves[k] in mLeafSpends {
            more := Drop(mLeafSpends[tx.leaves[k]], m, more);
          }
        }
      }
      AllSettled(mIndex, more, tx);
    }

    /** Removes h and its descendants, recording h as one more root. */
    method Drop(h: Hash, ghost m: Entries, ghost roots: set<Hash>) returns (ghost more: set<Hash>)
      requires Consistent() && mIndex == m - Closure(m, roots)
      modifies `mIndex, `mByFeeRate, `mByTime, `mSpends, `mLeafSpends, `mTotalBytes
      ensures Consistent() && more == roots + {h} && mIndex == m - Closure(m, more)
      ensures mIndex.Keys <= old(mIndex).Keys - {h}
    {
      hide Agrees, Closure;
      ClosureInTwoSteps(m, roots, {h});
      RemovedTwice(m, Closure(m, roots), Closure(mIndex, {h}));
      ClosureIsClosed(mIndex, {h});
      var n := RemoveRecursiveLocked(h);
      more := roots + {h};
    }

    // ---------- Expiry ----------

    method ExpireLocked(now: int) returns (removed: nat)
      requires Consistent()
      modifies `mIndex, `mByFeeRate, `mByTime, `mSpends, `mLeafSpends, `mTotalBytes
      ensures Consistent()
      ensures mIndex == Unexpired(old(mIndex), now)
      ensures removed == |old(mIndex)| - |mIndex|
    {
      hide Agrees;
      removed := 0;
      var cutoff := now - MEMPOOL_EXPIRY_SECONDS;
      ghost var young := Unexpired(mIndex, now);
      while mByTime != map[]
        invariant Consistent() && Unexpired(mIndex, now) == young
        invariant mIndex.Keys <= old(mIndex).Keys && removed == |old(mIndex)| - |mIndex|
        decreases |mIndex|
      {
        var first := FirstKey(mByTime);
        if first.major >= cutoff { break; }
        var h := mByTime[first];
        OldestExpired(View(), first, now);
        Smaller(mIndex, h);
        var gone := RemoveLocked(h);
        removed := removed + 1;
      }
      NoneExpired(View(), now);
    }

    // ---------- Trimming ----------

    method TrimLocked(now: int) returns (ghost victims: seq<Hash>)
      requires Consistent() && SoundRate(Roll())
      modifies `mIndex, `mByFeeRate, `mByTime, `mSpends, `mLeafSpends, `mTotalBytes,
               `mRollingMinFeeRate, `mLastRollingFeeUpdate, `mBlockSinceFeeBump
      ensures Valid()
      ensures Evictions(old(mIndex), mMaxBytes, victims) && mIndex == After(old(mIndex), victims)
      ensures Roll() == Bumps(old(Roll()), old(mIndex), victims, now)
      ensures Repriced(mRollingMinFeeRate, old(mIndex), victims)
    {
      hide Agrees, Closure, Evictions, SoundRate, Bumps, Repriced, IsCheapest;
      victims := [];
      NoEvictions(mIndex, mMaxBytes, Roll(), now);
      while mTotalBytes > mMaxBytes && mByFeeRate != map[]
        invariant Consistent() && SoundRate(Roll()) && Repriced(mRollingMinFeeRate, old(mIndex), victims)
        invariant Evictions(old(mIndex), mMaxBytes, victims) && mIndex == After(old(mIndex), victims)
        invariant Roll() == Bumps(old(Roll()), old(mIndex), victims, now)
        decreases |mIndex|
      {
        var h := EvictCheapest(old(mIndex), victims, now);
        victims := victims + [h];
      }
      EmptyFits(View());
    }

    /** One eviction: the rolling rate is raised above the cheapest entry's, which goes with all that builds on it. */
    method EvictCheapest(ghost m: Entries, ghost victims: seq<Hash>, now: int) returns (h: Hash)
      requires Consistent() && mTotalBytes > mMaxBytes && mByFeeRate != map[] && SoundRate(Roll())
      requires Evictions(m, mMaxBytes, victims)
      requires mIndex == After(m, victims) && Repriced(mRollingMinFeeRate, m, victims)
      modifies `mIndex, `mByFeeRate, `mByTime, `mSpends, `mLeafSpends, `mTotalBytes,
               `mRollingMinFeeRate, `mLastRollingFeeUpdate, `mBlockSinceFeeBump
      ensures Consistent() && SoundRate(Roll()) && |mIndex| < |old(mIndex)|
      ensures Evictions(m, mMaxBytes, victims + [h]) && mIndex == After(m, victims + [h])
      ensures Repriced(mRollingMinFeeRate, m, victims + [h])
      ensures forall r :: old(Roll()) == Bumps(r, m, victims, now) ==> Roll() == Bumps(r, m, victims + [h], now)
    {
      hide Agrees, Closure, Evictions, SoundRate, PricesOut, Bumpable, Repriced, Bumps, Bumped, After;
      var first := FirstKey(mByFeeRate);
      h := mByFeeRate[first];
      CheapestFirst(View(), first);
      OneMoreEviction(m, mMaxBytes, victims, h);
      EvictionsRemoveClosure(m, victims);
      EvictionShrinks(mIndex, h);
      OneMoreBump(Roll(), m, victims, h, now);
      OneMoreRepriced(Roll(), m, victims, h, now);
      Bump(first.major, now);
      var n := RemoveRecursiveLocked(h);
    }

    // ---------- Admission ----------

    /** The rate now asked. A frozen rate is answered as it stands, which is already at least one increment. */
    method GetMinFeeRateLocked(now: int, decayed: real) returns (rate: int)
      requires SoundRate(Roll()) && 0.0 <= decayed <= mRollingMinFeeRate
      modifies `mRollingMinFeeRate, `mLastRollingFeeUpdate
      ensures Roll() == Decayed(old(Roll()), now, decayed)
      ensures SoundRate(Roll()) && mRollingMinFeeRate <= old(mRollingMinFeeRate)
      ensures rate == MinRate(mRollingMinFeeRate) <= MinRate(old(mRollingMinFeeRate))
    {
      DecayLowers(Roll(), now, decayed);
      if !mBlockSinceFeeBump || mRollingMinFeeRate == 0.0 {
        return Rounded(mRollingMinFeeRate);
      }
      if now > mLastRollingFeeUpdate + 10 {
        mRollingMinFeeRate := decayed;
        mLastRollingFeeUpdate := now;
        if mRollingMinFeeRate < INCREMENTAL_FEE_PER_K as real / 2.0 {
          mRollingMinFeeRate := 0.0;
          return 0;
        }
      }
      rate := Rounded(mRollingMinFeeRate);
      if rate < INCREMENTAL_FEE_PER_K { rate := INCREMENTAL_FEE_PER_K; }
    }

    method GetMinFeeRate(now: int, decayed: real) returns (rate: int)
      requires Valid() && 0.0 <= decayed <= mRollingMinFeeRate
      modifies `mRollingMinFeeRate, `mLastRollingFeeUpdate
      ensures Valid() && Roll() == Decayed(old(Roll()), now, decayed) && mRollingMinFeeRate <= old(mRollingMinFeeRate)
      ensures rate == MinRate(mRollingMinFeeRate)
    {
      hide Agrees, Decayed, SoundRate, MinRate;
      rate := GetMinFeeRateLocked(now, decayed);
    }

    method ValidateForPool(tx: Tx, fee: int) returns (ok: bool)
      ensures ok <==> tx.valid && !tx.coinbase && fee >= 0 && tx.hash !in mIndex && tx.valueOut >= DUST_THRESHOLD
    {
      if !tx.valid { return false; }
      if tx.coinbase { return false; }
      if fee < 0 { return false; }
      if tx.hash in mIndex { return false; }
      if tx.valueOut < 0 { return false; }
      if tx.valueOut < DUST_THRESHOLD { return false; }
      return true;
    }

    /**
     Admission. The clock is a parameter, and so is what the exponential decay would leave of the rolling rate.
     Either the expired entries go and nothing else happens, or the new entry goes in and the cheapest go out.
     */
    method AddTransaction(tx: Tx, fee: int, now: int, decayed: real) returns (ok: bool, ghost victims: seq<Hash>)
      requires Valid() && 0.0 <= decayed <= mRollingMinFeeRate
      modifies this
      ensures Valid()
      ensures var m, roll := Unexpired(old(mIndex), now), Decayed(old(Roll()), now, decayed);
              if Admissible(m, tx, fee, MinRate(roll.rate)) then
                var grown := m[tx.hash := EntryOf(tx, fee, old(mSequenceCounter) + 1, now)];
                && Evictions(grown, mMaxBytes, victims) && Repriced(mRollingMinFeeRate, grown, victims)
                && Now() == State(After(grown, victims), old(mSequenceCounter) + 1, Bumps(roll, grown, victims, now))
                && ok == (tx.hash in mIndex)
              else
                && !ok && victims == []
                && Now() == State(m, old(mSequenceCounter), if Presentable(m, tx, fee) then roll else old(Roll()))
      ensures victims == [] ==> mRollingMinFeeRate <= old(mRollingMinFeeRate)
    {
      hide Agrees, Closure, Evictions, After, Unexpired, MinRate, Decayed;
      hide Repriced, Bumps, NoConflict, WithinChainLimits, SoundRate;
      victims := [];
      Expire(now);
      DecayLowers(Roll(), now, decayed);
      ok := Screen(tx, fee, now, decayed);
      if !ok { return; }
      ghost var roll := Roll();
      Insert(EntryOf(tx, fee, mSequenceCounter + 1, now));
      NoEvictions(mIndex, mMaxBytes, roll, now);
      victims := TrimLocked(now);
      ok := tx.hash in mIndex;
    }

    /** Drops what is too old. */
    method Expire(now: int)
      requires Valid()
      modifies `mIndex, `mByFeeRate, `mByTime, `mSpends, `mLeafSpends, `mTotalBytes
      ensures Valid() && mIndex == Unexpired(old(mIndex), now)
    {
      hide Agrees, SpendsIndexed, LeavesIndexed, Unexpired, SoundRate;
      ExpiryShrinks(mIndex, now);
      AgreesParts(View());
      var n := ExpireLocked(now);
      AgreesParts(View());
    }

    /** Every test a transaction must pass, in order. */
    method Screen(tx: Tx, fee: int, now: int, decayed: real) returns (ok: bool)
      requires Valid() && 0.0 <= decayed <= mRollingMinFeeRate
      modifies `mRollingMinFeeRate, `mLastRollingFeeUpdate
      ensures Valid()
        && Roll() == if Presentable(mIndex, tx, fee) then Decayed(old(Roll()), now, decayed) else old(Roll())
      ensures ok <==> Admissible(mIndex, tx, fee, MinRate(Decayed(old(Roll()), now, decayed).rate))
    {
      hide Agrees, SpendsIndexed, LeavesIndexed, NoConflict, MinRate, Decayed;
      hide WithinChainLimits, FeeRate, SoundRate, PaysRate;
      AgreesParts(View());
      ok := ValidateForPool(tx, fee);
      if !ok { return; }
      ok := ConflictFree(mIndex, mSpends, mLeafSpends, tx);
      if !ok { return; }
      if tx.size == 0 { return false; }
      DecayLowers(Roll(), now, decayed);
      var minRate := GetMinFeeRateLocked(now, decayed);
      RateAsked(Roll());
      RateMeets(fee, tx.size, minRate);
      if FeeRate(fee, tx.size) < minRate { return false; }
      ok := ChainLimitsHold(mIndex, mSpends, tx);
    }

    /** Enters a new entry into the map and every index. */
    method Insert(e: Entry)
      requires Consistent() && e.tx.hash !in mIndex && e.seqNo == mSequenceCounter + 1
      requires e.size == e.tx.size && e.leafKeys == e.tx.leaves && Screened(e) && NoConflict(mIndex, e.tx)
      modifies `mIndex, `mByFeeRate, `mByTime, `mSpends, `mLeafSpends, `mSequenceCounter, `mTotalBytes
      ensures Consistent() && mIndex == old(mIndex)[e.tx.hash := e]
      ensures mSequenceCounter == e.seqNo
    {
      hide Agrees, NoConflict;
      NothingTaken(View(), e);
      WithAgrees(View(), e);
      var hashKey := e.tx.hash;
      mSequenceCounter := mSequenceCounter + 1;
      mIndex := mIndex[hashKey := e];
      mByFeeRate := mByFeeRate[FeeKey(e) := hashKey];
      mByTime := mByTime[TimeKey(e) := hashKey];
      EnterSpends(e.tx);
      EnterLeaves(e);
      mTotalBytes := mTotalBytes + e.size;
      assert View() == With(old(View()), e);
    }

    method EnterSpends(tx: Tx)
      modifies `mSpends
      ensures mSpends == Entered(old(mSpends), tx.inputs, tx.hash)
    {
      hide Entered;
      EnteredEnds(mSpends, tx.inputs, tx.hash);
      for i := 0 to |tx.inputs|
        invariant mSpends == Entered(old(mSpends), tx.inputs[..i], tx.hash)
      {
        EnteredStep(old(mSpends), tx.inputs, i, tx.hash);
        mSpends := mSpends[tx.inputs[i] := tx.hash];
      }
    }

    method EnterLeaves(e: Entry)
      modifies `mLeafSpends
      ensures mLeafSpends == Entered(old(mLeafSpends), e.leafKeys, e.tx.hash)
    {
      hide Entered;
      EnteredEnds(mLeafSpends, e.leafKeys, e.tx.hash);
      for i := 0 to |e.leafKeys|
        invariant mLeafSpends == Entered(old(mLeafSpends), e.leafKeys[..i], e.tx.hash)
      {
        EnteredStep(old(mLeafSpends), e.leafKeys, i, e.tx.hash);
        mLeafSpends := mLeafSpends[e.leafKeys[i] := e.tx.hash];
      }
    }

    /** Raises the rolling minimum above an evicted rate. */
    method Bump(evictedRate: int, now: int)
      modifies `mRollingMinFeeRate, `mLastRollingFeeUpdate, `mBlockSinceFeeBump
      ensures Roll() == Bumped(old(Roll()), evictedRate, now)
    {
      var bumped := OneMore(evictedRate) as real;
      if bumped > mRollingMinFeeRate {
        mRollingMinFeeRate := bumped;
        mLastRollingFeeUpdate := now;
        mBlockSinceFeeBump := false;
      }
    }
  }

  datatype State = State(entries: Entries, counter: nat, roll: Rolling)

  /** What a call may do to the pool, what a query is answered, and who is evicted. */
  ghost predicate Follows(s: State, call: Call, max: nat, answer: int, victims: seq<Hash>, t: State)
  {
    match call
    case Add(tx, fee, now, decayed) =>
      var m, roll := Unexpired(s.entries, now), Decayed(s.roll, now, Within(decayed, s.roll.rate));
      if Admissible(m, tx, fee, MinRate(roll.rate)) then
        var grown := m[tx.hash := EntryOf(tx, fee, s.counter + 1, now)];
        && Evictions(grown, max, victims) && Repriced(t.roll.rate, grown, victims)
        && t == State(After(grown, victims), s.counter + 1, Bumps(roll, grown, victims, now))
      else
        victims == [] && t == State(m, s.counter, if Presentable(m, tx, fee) then roll else s.roll)
    case Remove(txHash) => victims == [] && t == s.(entries := s.entries - {txHash})
    case Connect(blockTxs) =>
      && victims == []
      && t == s.(entries := s.entries - Closure(s.entries, BlockRoots(s.entries, blockTxs)),
        roll := s.roll.(blockSeen := true))
    case Query(at, left) =>
      && victims == []
      && t == s.(roll := Decayed(s.roll, at, Within(left, s.roll.rate)))
      && answer == MinRate(t.roll.rate)
    case Reset => victims == [] && t == s.(entries := map[])
  }

  /** The rolling minimum is at least one increment above the rate. */
  ghost predicate PricesOut(rolling: real, rate: int)
  {
    rolling >= (rate + INCREMENTAL_FEE_PER_K) as real
  }

  /** The rolling minimum prices out exactly those victims whose rate leaves room for an increment. */
  ghost predicate Repriced(rolling: real, m: Entries, victims: seq<Hash>)
  {
    forall v :: v in victims ==> v in m && (PricesOut(rolling, m[v].feePerK) <==> Bumpable(m[v].feePerK))
  }

  lemma OneMoreBump(roll: Rolling, m: Entries, victims: seq<Hash>, v: Hash, now: int)
    requires v in m
    ensures forall r :: roll == Bumps(r, m, victims, now) ==>
      Bumped(roll, m[v].feePerK, now) == Bumps(r, m, victims + [v], now)
  {
    assert (victims + [v])[..|victims|] == victims;
  }

  /**
   A bump keeps the rate sound, and prices out the victim exactly when its rate leaves room; earlier victims
   stay priced out.
   */
  lemma OneMoreRepriced(r: Rolling, m: Entries, victims: seq<Hash>, v: Hash, now: int)
    requires v in m && 0 <= m[v].feePerK <= INT64_MAX && SoundRate(r) && Repriced(r.rate, m, victims)
    ensures var b := Bumped(r, m[v].feePerK, now);
            SoundRate(b) && r.rate <= b.rate && Repriced(b.rate, m, victims + [v])
  {
    var b := Bumped(r, m[v].feePerK, now);
    assert PricesOut(b.rate, m[v].feePerK) <==> Bumpable(m[v].feePerK);
    RepricedMore(r.rate, b.rate, m, victims, v);
  }

  lemma RepricedMore(low: real, high: real, m: Entries, victims: seq<Hash>, v: Hash)
    requires Repriced(low, m, victims) && low <= high <= INT64_MAX as real
    requires v in m && (PricesOut(high, m[v].feePerK) <==> Bumpable(m[v].feePerK))
    ensures Repriced(high, m, victims + [v])
  {}

  lemma RateAsked(r: Rolling)
    requires SoundRate(r)
    ensures 0 <= MinRate(r.rate) <= INT64_MAX
  {
    MinRateFits(r.rate);
  }

  /** What a decay can leave of a rate. */
  function Within(x: real, rate: real): real { if 0.0 <= x <= rate then x else rate }

  /** Nothing was evicted by the calls strictly between i and j. */
  ghost predicate Quiet(evicted: seq<seq<Hash>>, i: nat, j: nat)
  {
    forall k :: i < k < j && k < |evicted| ==> evicted[k] == []
  }

  /** The answers so far are in order, and the rate in force is above no answer since which nothing was evicted. */
  ghost predicate Answered(calls: seq<Call>, answers: seq<int>, evicted: seq<seq<Hash>>, rate: int)
  {
    && |answers| == |evicted| <= |calls|
    && (forall i :: 0 <= i < |answers| && calls[i].Query? ==> answers[i] == 0 || answers[i] >= INCREMENTAL_FEE_PER_K)
    && (forall i, j :: 0 <= i < j < |answers| && calls[i].Query? && calls[j].Query? && Quiet(evicted, i, j) ==>
      answers[j] <= answers[i])
    && (forall i :: 0 <= i < |answers| && calls[i].Query? && Quiet(evicted, i, |evicted|) ==> rate <= answers[i])
  }

  lemma AnswerStep(calls: seq<Call>, answers: seq<int>, evicted: seq<seq<Hash>>, rate: int, answer: int,
                   victims: seq<Hash>, rate': int)
    requires Answered(calls, answers, evicted, rate) && |answers| < |calls|
    requires victims == [] ==> rate' <= rate
    requires calls[|answers|].Query? ==>
      victims == [] && answer == rate' && (answer == 0 || answer >= INCREMENTAL_FEE_PER_K)
    ensures Answered(calls, answers + [answer], evicted + [victims], rate')
  {
    var n, more, gone := |answers|, answers + [answer], evicted + [victims];
    forall i, j | 0 <= i < j <= n && calls[i].Query? && calls[j].Query? && Quiet(gone, i, j)
      ensures more[j] <= more[i]
    {
      QuietBefore(evicted, victims, i, j);
    }
    forall i | 0 <= i <= n && calls[i].Query? && Quiet(gone, i, n + 1)
      ensures rate' <= more[i]
    {
      if i < n {
        assert gone[n] == [];
        assert Quiet(gone, i, n);
        QuietBefore(evicted, victims, i, n);
      }
    }
  }

  lemma QuietBefore(evicted: seq<seq<Hash>>, victims: seq<Hash>, i: nat, j: nat)
    requires j <= |evicted| && Quiet(evicted + [victims], i, j)
    ensures Quiet(evicted, i, j)
  {
    assert forall k :: i < k < j ==> evicted[k] == (evicted + [victims])[k];
  }

  ghost predicate Disjoint(e: Entry, f: Entry)
  {
    && (forall op :: op in e.tx.inputs ==> op !in f.tx.inputs)
    && (forall l :: l in e.leafKeys ==> l !in f.leafKeys)
  }

  lemma NothingShared(p: Pool)
    requires Agrees(p)
    ensures forall h, g :: h in p.index && g in p.index && h != g ==> Disjoint(p.index[h], p.index[g])
  {
    hide WellKeyed, FeeIndexed, TimeIndexed, TotalSize;
    forall h, g | h in p.index && g in p.index && h != g
      ensures Disjoint(p.index[h], p.index[g])
    {
      assert forall op :: op in p.index[h].tx.inputs ==> p.spends[op] == h;
      assert forall l :: l in p.index[h].leafKeys ==> p.leaves[l] == h;
    }
  }

  /** Walks the fee index backwards. */
  method BestFirst(m: Entries, index: map<Key, Hash>, maxCount: nat, ghost counter: nat) returns (out: seq<Tx>)
    requires FeeIndexed(m, index) && WellKeyed(m, counter)
    ensures |out| == if maxCount < |m| then maxCount else |m|
    ensures forall i :: 0 <= i < |out| ==> out[i].hash in m && m[out[i].hash].tx == out[i]
    ensures forall i, j :: 0 <= i < j < |out| ==> Less(FeeKey(m[out[j].hash]), FeeKey(m[out[i].hash]))
    ensures forall h, i :: h in m && m[h].tx !in out && 0 <= i < |out| ==> Less(FeeKey(m[h]), FeeKey(m[out[i].hash]))
  {
    hide WellKeyed, FeeIndexed, Walked;
    out := [];
    var rest := index;
    ghost var keys: seq<Key> := [];
    SameCount(m, index);
    WalkStart(m, index);
    while rest != map[] && |out| < maxCount
      invariant Walked(m, index, rest, keys, out) && |out| + |rest| == |m| && |out| <= maxCount
      decreases |rest|
    {
      var k := LastKey(rest);
      WalkStep(m, index, rest, keys, out, k);
      out := out + [m[rest[k]].tx];
      keys := keys + [k];
      rest := rest - {k};
    }
    ListedInOrder(m, index, keys, out, rest, counter);
  }

  /** out holds the transactions of strictly falling fee keys, and all keys still to come are lower. */
  ghost predicate Walked(m: Entries, index: map<Key, Hash>, rest: map<Key, Hash>, keys: seq<Key>, out: seq<Tx>)
  {
    && rest.Keys <= index.Keys && (forall k :: k in rest ==> rest[k] == index[k])
    && |keys| == |out|
    && (forall i :: 0 <= i < |keys| ==> keys[i] in index && index[keys[i]] in m && out[i] == m[index[keys[i]]].tx)
    && (forall i, j :: 0 <= i < j < |keys| ==> Less(keys[j], keys[i]))
    && (forall k, i :: k in rest && 0 <= i < |keys| ==> Less(k, keys[i]))
    && (forall k :: k in index ==> k in rest || k in keys)
  }

  lemma WalkStart(m: Entries, index: map<Key, Hash>)
    ensures Walked(m, index, index, [], [])
  {}

  lemma WalkStep(m: Entries, index: map<Key, Hash>, rest: map<Key, Hash>, keys: seq<Key>, out: seq<Tx>, k: Key)
    requires FeeIndexed(m, index) && Walked(m, index, rest, keys, out)
    requires k in rest && forall k' :: k' in rest ==> k' == k || Less(k', k)
    ensures rest[k] in m && |rest - {k}| == |rest| - 1
    ensures Walked(m, index, rest - {k}, keys + [k], out + [m[rest[k]].tx])
  {
    assert index[k] in m;
    hide Less, FeeIndexed, FeeKey;
    assert (rest - {k}).Keys == rest.Keys - {k};
    FallsOn(keys, rest, k);
  }

  /** Below all keys listed so far, the highest of the rest continues their fall. */
  lemma FallsOn(keys: seq<Key>, rest: map<Key, Hash>, k: Key)
    requires k in rest && forall c :: c in rest ==> c == k || Less(c, k)
    requires forall i, j :: 0 <= i < j < |keys| ==> Less(keys[j], keys[i])
    requires forall c, i :: c in rest && 0 <= i < |keys| ==> Less(c, keys[i])
    ensures var more := keys + [k];
            && (forall i, j :: 0 <= i < j < |more| ==> Less(more[j], more[i]))
            && (forall c, i :: c in rest - {k} && 0 <= i < |more| ==> Less(c, more[i]))
  {
    hide Less;
  }

  lemma ListedInOrder(m: Entries, index: map<Key, Hash>, keys: seq<Key>, out: seq<Tx>, rest: map<Key, Hash>,
                      counter: nat)
    requires FeeIndexed(m, index) && WellKeyed(m, counter) && Walked(m, index, rest, keys, out)
    ensures forall i :: 0 <= i < |out| ==> out[i].hash in m && m[out[i].hash].tx == out[i]
    ensures forall i, j :: 0 <= i < j < |out| ==> Less(FeeKey(m[out[j].hash]), FeeKey(m[out[i].hash]))
    ensures forall h, i :: h in m && m[h].tx !in out && 0 <= i < |out| ==> Less(FeeKey(m[h]), FeeKey(m[out[i].hash]))
  {
    assert forall i :: 0 <= i < |out| ==> out[i].hash == index[keys[i]] && FeeKey(m[out[i].hash]) == keys[i];
    forall h, i | h in m && m[h].tx !in out && 0 <= i < |out|
      ensures Less(FeeKey(m[h]), FeeKey(m[out[i].hash]))
    {
      assert FeeKey(m[h]) in index;
    }
  }

  lemma {:induction false} SameCount(m: Entries, index: map<Key, Hash>)
    requires FeeIndexed(m, index)
    ensures |index| == |m|
    decreases |m|
  {
    if h :| h in m {
      Smaller(m, h);
      var k := FeeKey(m[h]);
      assert (index - {k}).Keys == index.Keys - {k};
      SameCount(m - {h}, index - {k});
    } else {
      assert m == map[] && index == map[];
    }
  }

  ghost predicate Unspent(m: Entries, op: Outpoint)
  {
    forall h :: h in m ==> op !in m[h].tx.inputs
  }

  ghost predicate Unused(m: Entries, l: Leaf)
  {
    forall h :: h in m ==> l !in m[h].leafKeys
  }

  /** Nothing left in the pool conflicts with the transaction. */
  ghost predicate Settled(m: Entries, roots: set<Hash>, tx: Tx)
  {
    !tx.coinbase ==> tx.hash in roots && forall h :: h in m ==> !ConflictsWith(m, h, tx)
  }

  lemma StaysSettled(m: Entries, roots: set<Hash>, m': Entries, roots': set<Hash>, tx: Tx)
    requires Settled(m, roots, tx) && roots <= roots'
    requires forall h :: h in m' ==> h in m && m'[h] == m[h]
    ensures Settled(m', roots', tx)
  {}

  /** r is one of the hashes the block throws out directly. */
  ghost predicate Condemned(m: Entries, txs: seq<Tx>, r: Hash)
  {
    exists i :: 0 <= i < |txs| && !txs[i].coinbase && (r == txs[i].hash || ConflictsWith(m, r, txs[i]))
  }

  lemma NoRoots(m: Entries)
    ensures m - Closure(m, {}) == m
  {
    ClosureIsLeast(m, {}, {});
  }

  lemma AllSettled(m: Entries, roots: set<Hash>, tx: Tx)
    requires tx.hash in roots
    requires forall j :: 0 <= j < |tx.inputs| ==> Unspent(m, tx.inputs[j])
    requires tx.leavesOk ==> forall j :: 0 <= j < |tx.leaves| ==> Unused(m, tx.leaves[j])
    ensures Settled(m, roots, tx)
  {}

  /** Whoever the index names for input k conflicts with the transaction; if it names nobody, nobody spends it. */
  lemma SpenderOf(p: Pool, tx: Tx, k: nat, m: Entries)
    requires Agrees(p) && k < |tx.inputs| && forall h :: h in p.index ==> h in m && m[h] == p.index[h]
    ensures tx.inputs[k] in p.spends ==> ConflictsWith(m, p.spends[tx.inputs[k]], tx)
    ensures forall h :: h in p.index && tx.inputs[k] in p.index[h].tx.inputs ==>
      tx.inputs[k] in p.spends && p.spends[tx.inputs[k]] == h
  {
    hide WellKeyed, FeeIndexed, TimeIndexed, LeavesIndexed, TotalSize;
  }

  lemma ConsumerOf(p: Pool, tx: Tx, k: nat, m: Entries)
    requires Agrees(p) && tx.leavesOk && k < |tx.leaves| && forall h :: h in p.index ==> h in m && m[h] == p.index[h]
    ensures tx.leaves[k] in p.leaves ==> ConflictsWith(m, p.leaves[tx.leaves[k]], tx)
    ensures forall h :: h in p.index && tx.leaves[k] in p.index[h].leafKeys ==>
      tx.leaves[k] in p.leaves && p.leaves[tx.leaves[k]] == h
  {
    hide WellKeyed, FeeIndexed, TimeIndexed, SpendsIndexed, TotalSize;
  }

  /** Once every block transaction is settled, the roots used have the closure of the block's roots. */
  lemma RootsSettled(m: Entries, txs: seq<Tx>, roots: set<Hash>, left: Entries)
    requires left == m - Closure(m, roots)
    requires forall r :: r in roots ==> Condemned(m, txs, r)
    requires forall k :: 0 <= k < |txs| ==> Settled(left, roots, txs[k])
    ensures Closure(m, roots) == Closure(m, BlockRoots(m, txs))
  {
    var all := BlockRoots(m, txs);
    hide Closure, Settled;
    ClosureIsClosed(m, all);
    forall r | r in all
      ensures r in Closure(m, roots)
    {
      CondemnedGone(m, txs, roots, left, r);
    }
    ClosureSame(m, roots, all);
  }

  lemma CondemnedGone(m: Entries, txs: seq<Tx>, roots: set<Hash>, left: Entries, r: Hash)
    requires left == m - Closure(m, roots) && Condemned(m, txs, r)
    requires forall k :: 0 <= k < |txs| ==> Settled(left, roots, txs[k])
    ensures r in Closure(m, roots)
  {
    hide Closure;
    ClosureIsClosed(m, roots);
    var i :| 0 <= i < |txs| && !txs[i].coinbase && (r == txs[i].hash || ConflictsWith(m, r, txs[i]));
    assert Settled(left, roots, txs[i]);
    assert r in left ==> !ConflictsWith(left, r, txs[i]);
  }

  lemma NoEvictions(m: Entries, max: nat, roll: Rolling, now: int)
    ensures Evictions(m, max, []) && After(m, []) == m && Repriced(roll.rate, m, []) && Bumps(roll, m, [], now) == roll
  {}

  lemma EmptyFits(p: Pool)
    requires Agrees(p)
    ensures p.byFee == map[] ==> p.total == 0
  {
    if p.byFee == map[] { assert p.index == map[]; }
  }

  /** The oldest entry, if too old, is not among the young ones. */
  lemma OldestExpired(p: Pool, first: Key, now: int)
    requires Agrees(p) && first in p.byTime && first.major < now - MEMPOOL_EXPIRY_SECONDS
    ensures p.byTime[first] in p.index
    ensures Unexpired(p.index - {p.byTime[first]}, now) == Unexpired(p.index, now)
  {}

  lemma NoneExpired(p: Pool, now: int)
    requires Agrees(p)
    requires forall k :: k in p.byTime ==> k.major >= now - MEMPOOL_EXPIRY_SECONDS
    ensures Unexpired(p.index, now) == p.index
  {}

  lemma CheapestFirst(p: Pool, first: Key)
    requires Agrees(p) && first in p.byFee
    requires forall k :: k in p.byFee ==> k == first || Less(first, k)
    ensures IsCheapest(p.index, p.byFee[first])
    ensures FeeKey(p.index[p.byFee[first]]) == first && 0 <= first.major <= INT64_MAX
    ensures TotalSize(p.index) == p.total
  {}

  lemma EvictionShrinks(m: Entries, h: Hash)
    requires h in m
    ensures |m - Closure(m, {h})| < |m|
  {
    ClosureIsClosed(m, {h});
    var d := Closure(m, {h});
    assert (m - d).Keys == m.Keys - d;
    SubsetSize(m.Keys - d, m.Keys - {h});
  }

  lemma ExpiryShrinks(m: Entries, now: int)
    ensures TotalSize(Unexpired(m, now)) <= TotalSize(m)
  {
    var gone := set h | h in m && h !in Unexpired(m, now);
    TotalSizeMono(m, gone);
    assert m - gone == Unexpired(m, now);
  }

  /** An entry in conflict with nothing claims no outpoint and no leaf already indexed. */
  lemma NothingTaken(p: Pool, e: Entry)
    requires Agrees(p) && NoConflict(p.index, e.tx) && e.leafKeys == e.tx.leaves
    ensures forall op :: op in e.tx.inputs ==> op !in p.spends
    ensures forall l :: l in e.leafKeys ==> l !in p.leaves
  {}

  /** In-pool double spends and leaf reuse, and a leaf named twice by one transaction. */
  method ConflictFree(m: Entries, spends: map<Outpoint, Hash>, leaves: map<Leaf, Hash>, tx: Tx) returns (ok: bool)
    requires SpendsIndexed(m, spends) && LeavesIndexed(m, leaves)
    ensures ok <==> NoConflict(m, tx)
  {
    for i := 0 to |tx.inputs|
      invariant forall k :: 0 <= k < i ==> tx.inputs[k] !in spends
    {
      if tx.inputs[i] in spends {
        assert tx.inputs[i] in m[spends[tx.inputs[i]]].tx.inputs && tx.inputs[i] in tx.inputs;
        return false;
      }
    }
    for i := 0 to |tx.leaves|
      invariant forall k :: 0 <= k < i ==> tx.leaves[k] !in leaves
      invariant forall j, k :: 0 <= j < k < i ==> tx.leaves[j] != tx.leaves[k]
    {
      if tx.leaves[i] in leaves {
        assert tx.leaves[i] in m[leaves[tx.leaves[i]]].leafKeys && tx.leaves[i] in tx.leaves;
        return false;
      }
      for j := 0 to i
        invariant forall k :: 0 <= k < j ==> tx.leaves[k] != tx.leaves[i]
      {
        if tx.leaves[j] == tx.leaves[i] { return false; }
      }
    }
    return true;
  }

  method ChainLimitsHold(m: Entries, spends: map<Outpoint, Hash>, tx: Tx) returns (ok: bool)
    requires SpendsIndexed(m, spends)
    ensures ok <==> WithinChainLimits(m, tx)
  {
    hide Closure, Ancestors;
    var ancestors := CountAncestors(m, tx);
    if ancestors > MAX_ANCESTORS { return false; }
    for i := 0 to |tx.inputs|
      invariant forall k :: 0 <= k < i && tx.inputs[k].txid in m ==>
        |Closure(m, {tx.inputs[k].txid})| + 1 <= MAX_DESCENDANTS
    {
      var parent := tx.inputs[i].txid;
      if parent in m {
        var all := Descendants(m, spends, parent);
        Distinct(all);
        if |all| + 1 > MAX_DESCENDANTS {
          assert IsParent(m, tx.inputs, parent);
          return false;
        }
      }
    }
    return true;
  }

  /** Breadth-first search up the inputs, counting the transaction itself. */
  method CountAncestors(m: Entries, tx: Tx) returns (n: nat)
    ensures n == |Ancestors(m, tx)| + 1
  {
    var queue := AddParents(m, tx, tx.inputs, []);
    var head := 0;
    while head < |queue|
      invariant head <= |queue| && Gathered(m, tx, queue)
      invariant HoldsParents(m, tx, Elements(queue))
      invariant forall k :: 0 <= k < head ==> ParentsIn(m, m[queue[k]].tx.inputs, queue)
      decreases |m.Keys| - head
    {
      QueueFits(queue, m.Keys);
      assert queue[head] in queue;
      queue := AddParents(m, tx, m[queue[head]].tx.inputs, queue);
      head := head + 1;
    }
    AncestorsUnique(m, tx, Elements(queue));
    Distinct(queue);
    n := |queue| + 1;
  }

  ghost predicate Gathered(m: Entries, tx: Tx, queue: seq<Hash>)
  {
    && (forall i, j :: 0 <= i < j < |queue| ==> queue[i] != queue[j])
    && (forall h :: h in queue ==> h in m && InEveryAncestry(m, tx, h))
  }

  ghost predicate ParentsIn(m: Entries, inputs: seq<Outpoint>, queue: seq<Hash>)
  {
    forall p :: IsParent(m, inputs, p) ==> p in queue
  }

  /** Queues the in-pool parents named by the inputs that were not seen before. */
  method AddParents(m: Entries, tx: Tx, inputs: seq<Outpoint>, queue: seq<Hash>) returns (out: seq<Hash>)
    requires Gathered(m, tx, queue)
    requires forall p :: IsParent(m, inputs, p) ==> InEveryAncestry(m, tx, p)
    ensures queue <= out && Gathered(m, tx, out) && ParentsIn(m, inputs, out)
  {
    out := queue;
    for i := 0 to |inputs|
      invariant queue <= out && Gathered(m, tx, out)
      invariant forall k :: 0 <= k < i && inputs[k].txid in m ==> inputs[k].txid in out
    {
      var parent := inputs[i].txid;
      if parent in m && parent !in out {
        assert IsParent(m, inputs, parent);
        out := out + [parent];
      }
    }
  }

  /** Breadth-first search over in-pool spends. */
  method Descendants(m: Entries, spends: map<Outpoint, Hash>, root: Hash) returns (out: seq<Hash>)
    requires SpendsIndexed(m, spends)
    ensures forall i, j :: 0 <= i < j < |out| ==> out[i] != out[j]
    ensures Elements(out) == Closure(m, {root}) && |out| > 0 && out[0] == root
  {
    hide SpendsIndexed, SpendersIn, Collected, Closure;
    out := [root];
    RootCollected(m, root);
    ghost var all := m.Keys + {root};
    var head := 0;
    while head < |out|
      invariant head <= |out| && Collected(m, root, out)
      invariant forall k :: 0 <= k < head ==> SpendersIn(m, out[k], out)
      decreases |all| - head
    {
      CollectedFits(m, root, out);
      ghost var before := out;
      if out[head] in m {
        out := AddSpenders(m, spends, root, out, head);
        SpendersStay(m, before, out, head);
      } else {
        NoSpenders(m, out[head], out);
      }
      head := head + 1;
    }
    CollectedAll(m, root, out);
  }

  lemma RootCollected(m: Entries, root: Hash)
    ensures Collected(m, root, [root])
  {}

  lemma CollectedFits(m: Entries, root: Hash, queue: seq<Hash>)
    requires Collected(m, root, queue)
    ensures |queue| <= |m.Keys + {root}| && queue[0] == root
  {
    QueueFits(queue, m.Keys + {root});
  }

  lemma SpendersStay(m: Entries, queue: seq<Hash>, more: seq<Hash>, n: nat)
    requires queue <= more && n <= |queue| && forall k :: 0 <= k < n ==> SpendersIn(m, queue[k], queue)
    ensures forall k :: 0 <= k < n ==> SpendersIn(m, more[k], more)
  {
    forall k | 0 <= k < n
      ensures SpendersIn(m, more[k], more)
    {
      assert more[k] == queue[k] && SpendersIn(m, queue[k], queue);
    }
  }

  lemma NoSpenders(m: Entries, h: Hash, queue: seq<Hash>)
    requires h !in m
    ensures SpendersIn(m, h, queue)
  {}

  lemma CollectedAll(m: Entries, root: Hash, out: seq<Hash>)
    requires Collected(m, root, out) && forall k :: 0 <= k < |out| ==> SpendersIn(m, out[k], out)
    ensures Elements(out) == Closure(m, {root}) && |out| > 0 && out[0] == root
    ensures forall i, j :: 0 <= i < j < |out| ==> out[i] != out[j]
  {
    hide Closure, InEvery, SpendsOutput;
    ClosureUnique(m, {root}, Elements(out));
  }

  /** What the search knows of its queue. */
  ghost predicate Collected(m: Entries, root: Hash, queue: seq<Hash>)
  {
    && |queue| > 0 && queue[0] == root
    && (forall i, j :: 0 <= i < j < |queue| ==> queue[i] != queue[j])
    && (forall h :: h in queue ==> h in m.Keys + {root} && InEvery(m, {root}, h))
  }

  ghost predicate SpendersIn(m: Entries, h: Hash, queue: seq<Hash>)
  {
    forall c :: SpendsOutput(m, c, h) ==> c in queue
  }

  /** Queues the spenders of the outputs of queue[head] not seen before. */
  method AddSpenders(m: Entries, spends: map<Outpoint, Hash>, root: Hash, queue: seq<Hash>,
                     head: nat) returns (out: seq<Hash>)
    requires SpendsIndexed(m, spends) && Collected(m, root, queue) && head < |queue| && queue[head] in m
    ensures queue <= out && Collected(m, root, out) && SpendersIn(m, queue[head], out)
  {
    hide Collected;
    out := queue;
    var txid, outCount := queue[head], m[queue[head]].tx.outputs;
    for i := 0 to outCount
      invariant queue <= out && Collected(m, root, out)
      invariant forall op :: op in spends && op.txid == txid && op.index < i ==> spends[op] in out
    {
      var op := Outpoint(txid, i);
      if op in spends && spends[op] !in out {
        assert SpendsOutput(m, spends[op], txid);
        OneMoreCollected(m, root, out, txid, spends[op]);
        out := out + [spends[op]];
      }
    }
  }

  lemma OneMoreCollected(m: Entries, root: Hash, queue: seq<Hash>, h: Hash, c: Hash)
    requires Collected(m, root, queue) && h in queue && SpendsOutput(m, c, h) && c !in queue
    ensures Collected(m, root, queue + [c])
  {
    assert InEvery(m, {root}, h);
  }

  /** One more removal from the back of the list. */
  lemma RemoveNext(m: Entries, doomed: seq<Hash>, i: nat, now: Entries)
    requires i < |doomed| && now == m - Elements(doomed[i + 1..])
    ensures now - {doomed[i]} == m - Elements(doomed[i..])
    ensures |now - {doomed[i]}| == if doomed[i] in now then |now| - 1 else |now|
  {
    assert doomed[i..] == [doomed[i]] + doomed[i + 1..];
    if doomed[i] in now { Smaller(now, doomed[i]); } else { assert now - {doomed[i]} == now; }
  }

  lemma QueueFits(queue: seq<Hash>, all: set<Hash>)
    requires forall i, j :: 0 <= i < j < |queue| ==> queue[i] != queue[j]
    requires forall h :: h in queue ==> h in all
    ensures |queue| <= |all|
  {
    Distinct(queue);
    SubsetSize(Elements(queue), all);
  }

  lemma {:induction false} Distinct(queue: seq<Hash>)
    requires forall i, j :: 0 <= i < j < |queue| ==> queue[i] != queue[j]
    ensures |Elements(queue)| == |queue|
  {
    if queue != [] {
      var n := |queue| - 1;
      Distinct(queue[..n]);
      assert Elements(queue) == Elements(queue[..n]) + {queue[n]};
    }
  }
}
