/** The block subsidy schedule and the cap it implies on the money supply. */
module Subsidy {
  import opened Limbs

  const COIN: nat := 100_000_000
  const MAX_MONEY: nat := 30_000_000 * COIN
  const INITIAL_SUBSIDY: nat := 77 * COIN
  const HALVING_INTERVAL: nat := 194_804
  const LAST_SUBSIDY_HEIGHT: nat := 33 * HALVING_INTERVAL

  /** x shifted right n times. */
  function Halved(x: nat, n: nat): (r: nat)
    decreases n
  {
    if n == 0 then x else Halved(x, n - 1) / 2
  }

  function GetBlockSubsidy(height: nat): (r: nat)
  {
    var halvings := height / HALVING_INTERVAL;
    if halvings >= 64 then 0 else Halved(INITIAL_SUBSIDY, halvings)
  }

  /** 77 coins for the first block and every other of its era, half of it, rounded down, an era later. */
  lemma Schedule(height: nat)
    ensures GetBlockSubsidy(0) == 7_700_000_000
    ensures (height + 1) % HALVING_INTERVAL != 0 ==> GetBlockSubsidy(height + 1) == GetBlockSubsidy(height)
    ensures GetBlockSubsidy(height + HALVING_INTERVAL) == GetBlockSubsidy(height) / 2
  {
    var era := height / HALVING_INTERVAL;
    assert (height + HALVING_INTERVAL) / HALVING_INTERVAL == era + 1;
    if (height + 1) % HALVING_INTERVAL != 0 { assert (height + 1) / HALVING_INTERVAL == era; }
    hide Halved;
    HalvedStep(era);
    LastHalvings();
    if era >= 33 { HalvedMono(33, era); }
  }

  lemma HalvedStep(n: nat)
    ensures Halved(INITIAL_SUBSIDY, 0) == INITIAL_SUBSIDY
    ensures Halved(INITIAL_SUBSIDY, n + 1) == Halved(INITIAL_SUBSIDY, n) / 2
  {}

  /** Coins created by blocks 0 .. n-1. */
  ghost function Supply(n: nat): (s: nat)
  {
    if n == 0 then 0 else Supply(n - 1) + GetBlockSubsidy(n - 1)
  }

  /** The supply never exceeds the cap, at any height. */
  lemma SupplyCap(n: nat)
    ensures Supply(n) <= MAX_MONEY
  {
    SupplyWithReserve(n);
  }

  /** What era k can still create: the rest of it, and no more than one full era again after it. */
  ghost function Reserve(n: nat): nat
  {
    var era, left := n / HALVING_INTERVAL, 2 * HALVING_INTERVAL - n % HALVING_INTERVAL;
    MulMono(0, left, Halved(INITIAL_SUBSIDY, era));
    left * Halved(INITIAL_SUBSIDY, era)
  }

  lemma {:induction false} SupplyWithReserve(n: nat)
    ensures Supply(n) + Reserve(n) <= 2 * HALVING_INTERVAL * INITIAL_SUBSIDY
  {
    if n > 0 {
      SupplyWithReserve(n - 1);
      ReserveStep(n - 1);
    }
  }

  /** Each block is paid out of the reserve, and starting a new era halves it. */
  lemma ReserveStep(m: nat)
    ensures GetBlockSubsidy(m) + Reserve(m + 1) <= Reserve(m)
  {
    var era, sub := m / HALVING_INTERVAL, Halved(INITIAL_SUBSIDY, m / HALVING_INTERVAL);
    var left := 2 * HALVING_INTERVAL - m % HALVING_INTERVAL;
    assert GetBlockSubsidy(m) <= sub;
    assert (left - 1) * sub == left * sub - sub by { Distribute(left, -1, sub); }
    if m % HALVING_INTERVAL + 1 < HALVING_INTERVAL {
      assert (m + 1) / HALVING_INTERVAL == era && (m + 1) % HALVING_INTERVAL == m % HALVING_INTERVAL + 1;
    } else {
      assert (m + 1) / HALVING_INTERVAL == era + 1 && (m + 1) % HALVING_INTERVAL == 0;
    }
  }

  /** The subsidy ends exactly at LAST_SUBSIDY_HEIGHT. */
  lemma SubsidyEnds(height: nat)
    ensures GetBlockSubsidy(height) == 0 <==> height >= LAST_SUBSIDY_HEIGHT
  {
    var era := height / HALVING_INTERVAL;
    LastHalvings();
    assert era >= 33 <==> height >= LAST_SUBSIDY_HEIGHT;
    if era <= 32 { HalvedMono(era, 32); } else { HalvedMono(33, era); }
  }

  lemma LastHalvings()
    ensures Halved(INITIAL_SUBSIDY, 32) == 1 && Halved(INITIAL_SUBSIDY, 33) == 0
  {
    assert Halved(INITIAL_SUBSIDY, 4) == 481250000;
    assert Halved(INITIAL_SUBSIDY, 8) == 30078125;
    assert Halved(INITIAL_SUBSIDY, 12) == 1879882;
    assert Halved(INITIAL_SUBSIDY, 16) == 117492;
    assert Halved(INITIAL_SUBSIDY, 20) == 7343;
    assert Halved(INITIAL_SUBSIDY, 24) == 458;
    assert Halved(INITIAL_SUBSIDY, 28) == 28;
    assert Halved(INITIAL_SUBSIDY, 32) == 1;
  }

  lemma {:induction false} HalvedMono(m: nat, n: nat)
    requires m <= n
    ensures Halved(INITIAL_SUBSIDY, n) <= Halved(INITIAL_SUBSIDY, m)
  {
    if m < n { HalvedMono(m, n - 1); }
  }
}
