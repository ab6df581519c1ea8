/**
 Proof of work: checking a hash against a compact target, the two difficulty
 rules, and chain work. Every method runs on limbs and is proved against integers.
 */
module Pow {
  import opened ArithUint256
  import opened Asert
  import opened Bytes32
  import opened Compact
  import opened Limbs
  import opened LimbSteps

  const POW_LIMIT_COMPACT: Limb := 0x1d00ffff
  const POW_TARGET_TIMESPAN: nat := 2016 * 600
  const POW_MIN_TIMESPAN_PERCENT: nat := 80
  const POW_MAX_TIMESPAN_PERCENT: nat := 400
  const ASERT_ANCHOR_HEIGHT: nat := 65713
  const ASERT_HALF_LIFE: nat := 2 * 24 * 60 * 60
  const BLOCK_TIME_TARGET: nat := 600

  /** The easiest target allowed. */
  ghost function PowLimit(): (r: nat) { Decode(POW_LIMIT_COMPACT) }

  /** A compact number usable as a target at all. */
  ghost predicate Usable(bits: Limb)
  {
    !IsNegative(bits) && !Overflows(bits) && Decode(bits) != 0
  }

  lemma PowLimitBounds()
    ensures 0 < PowLimit() < Weight(7) < MODULUS
    ensures !SignOf(POW_LIMIT_COMPACT) && Usable(POW_LIMIT_COMPACT)
  {
    assert SizeOf(POW_LIMIT_COMPACT) == 29 && WordOf(POW_LIMIT_COMPACT) == 0xffff && !SignOf(POW_LIMIT_COMPACT);
    hide Decode, Weight, Usable;
    LimitFields(POW_LIMIT_COMPACT);
  }

  lemma LimitFields(bits: Limb)
    requires SizeOf(bits) == 29 && WordOf(bits) == 0xffff && !SignOf(bits)
    ensures 0 < Decode(bits) < Weight(7) < MODULUS && Usable(bits)
  {
    hide Pow256, Weight;
    TopWeight();
    LimitBelow(SizeOf(bits) - 3, 7);
  }

  /** The easiest target is 65535 * 2^208. */
  lemma PowLimitIs(n: nat)
    requires n == 208
    ensures PowLimit() == 0xffff * Pow2(n)
  {
    assert SizeOf(POW_LIMIT_COMPACT) == 29 && WordOf(POW_LIMIT_COMPACT) == 0xffff;
    hide Pow256, Pow2;
    Pow256IsPow2(SizeOf(POW_LIMIT_COMPACT) - 3);
  }

  lemma TopWeight()
    ensures MODULUS == BASE * Weight(7) && Weight(7) > 0
  {}

  lemma LimitBelow(k: nat, n: nat)
    requires k + 2 == 4 * n
    ensures 0 < 0xffff * Pow256(k) < Weight(n)
  {
    assert Pow256(k + 2) == 0x100 * Pow256(k + 1);
    Pow256IsPow2(k + 2);
    WeightIsPow2(n);
  }

  /** A compact target on limbs. */
  method TargetFrom(bits: Limb) returns (target: Uint256, negative: bool, overflow: bool)
    ensures fresh(target) && fresh(target.pn) && target.Valid()
    ensures negative <==> IsNegative(bits)
    ensures overflow <==> Overflows(bits)
    ensures !overflow ==> target.Value() == Decode(bits)
  {
    target := new Uint256(0);
    negative, overflow := target.SetCompact(bits);
    if !overflow { NoWrap(Decode(bits)); }
  }

  // ---------- Checking ----------

  method CheckProofOfWork(hash: Digest, bits: Limb) returns (ok: bool)
    ensures ok <==> Usable(bits) && Decode(bits) <= PowLimit() && Number(hash) <= Decode(bits)
  {
    PowLimitBounds();
    var target, negative, overflow := TargetFrom(bits);
    var limit, _, _ := TargetFrom(POW_LIMIT_COMPACT);
    var zero := target.EqualTo(0);
    var c := target.CompareTo(limit);
    if negative || zero || overflow || c > 0 { return false; }
    var h := FromBytes(hash);
    var d := h.CompareTo(target);
    if d > 0 { return false; }
    return true;
  }

  lemma NoWrap(x: nat)
    requires x < MODULUS
    ensures x % MODULUS == x
  {
    DivUnique(x, MODULUS, 0, x);
  }

  // ---------- Periodic retarget ----------

  /** The time the last period took, held between 80% and 400% of the ideal. */
  function ClampedTimespan(actual: int): (t: nat)
    ensures 967680 <= t <= 4838400
  {
    var least := POW_TARGET_TIMESPAN * POW_MIN_TIMESPAN_PERCENT / 100;
    var most := POW_TARGET_TIMESPAN * POW_MAX_TIMESPAN_PERCENT / 100;
    if actual < least then least else if actual > most then most else actual
  }

  ghost function Min(a: int, b: int): int { if a <= b then a else b }

  /** What the limbs compute, the possible wrap of the product included. */
  ghost function Retargeted(target: nat, actual: int, limit: nat): (r: nat)
    ensures r <= limit
  {
    DivShrinks(target * ClampedTimespan(actual) % MODULUS, POW_TARGET_TIMESPAN);
    Min(limit, target * ClampedTimespan(actual) % MODULUS / POW_TARGET_TIMESPAN)
  }

  method CalculateNextWorkRequired(lastBits: Limb, lastBlockTime: Word64, firstBlockTime: Word64) returns (bits: Limb)
    requires DifferenceFits(Signed(lastBlockTime), Signed(firstBlockTime))
    ensures PowLimit() < MODULUS
    ensures bits == if Usable(lastBits)
                    then Encode(Retargeted(Decode(lastBits), Signed(lastBlockTime) - Signed(firstBlockTime),
                                PowLimit()))
                    else POW_LIMIT_COMPACT
  {
    PowLimitBounds();
    var actual := ClampedTimespan(Signed(lastBlockTime) - Signed(firstBlockTime));
    var limit, _, _ := TargetFrom(POW_LIMIT_COMPACT);
    var next, negative, overflow := TargetFrom(lastBits);
    var zero := next.EqualTo(0);
    if negative || overflow || zero { return POW_LIMIT_COMPACT; }
    Rescale(next, actual, limit);
    bits := next.GetCompact(false);
  }

  /** The new target on limbs: multiply, divide, cap. */
  method Rescale(target: Uint256, actual: Limb, limit: Uint256)
    requires target.Valid() && limit.Valid() && target.pn != limit.pn
    modifies target.pn
    ensures target.Value() == Min(limit.Value(), old(target.Value()) * actual % MODULUS / POW_TARGET_TIMESPAN)
  {
    target.MulWordAssign(actual);
    var ideal := new Uint256(POW_TARGET_TIMESPAN);
    var ok := target.DivAssign(ideal);
    var c := target.CompareTo(limit);
    if c > 0 { target.Assign(limit); }
  }

  /** From a target within the limit nothing wraps, and the new target is at most four times the old one. */
  lemma RetargetBounded(bits: Limb, actual: int, limit: nat)
    requires Decode(bits) <= limit < Weight(7)
    ensures limit < MODULUS && Decode(bits) * ClampedTimespan(actual) < MODULUS
    ensures Decode(Encode(Retargeted(Decode(bits), actual, limit))) <= Min(limit, 4 * Decode(bits))
  {
    var x, t := Decode(bits), ClampedTimespan(actual);
    ProductFits(x, t, limit);
    RetargetExact(x, actual, limit);
    FourTimes(x, t);
    EncodeIsLargest(Retargeted(x, actual, limit), 0);
  }

  lemma RetargetExact(x: nat, actual: int, limit: nat)
    requires x <= limit < Weight(7)
    ensures Retargeted(x, actual, limit) == Min(limit, x * ClampedTimespan(actual) / POW_TARGET_TIMESPAN)
  {
    ProductFits(x, ClampedTimespan(actual), limit);
    NoWrap(x * ClampedTimespan(actual));
  }

  /**
   Two weeks are ideal. A period between 80 and 400 percent of that scales the target by what it took, a shorter
   one by four fifths and a longer one by four, rounded down and held to the limit.
   */
  lemma RetargetScales(x: nat, actual: int, limit: nat)
    requires x <= limit < Weight(7)
    ensures Retargeted(x, actual, limit) == Min(limit,
              if 100 * actual < 80 * 1209600 then 4 * x / 5
              else if 100 * actual > 400 * 1209600 then 4 * x
              else x * actual / 1209600)
  {
    hide Retargeted;
    RetargetExact(x, actual, limit);
    assert ClampedTimespan(actual)
        == if 100 * actual < 80 * 1209600 then 967680 else if 100 * actual > 400 * 1209600 then 4838400 else actual;
    FourFifths(x);
    DivUnique(x * 4838400, 1209600, 4 * x, 0);
  }

  lemma FourFifths(x: nat)
    ensures x * 967680 / 1209600 == 4 * x / 5
  {
    var q, r := 4 * x / 5, 4 * x % 5;
    DivUnique(x * 967680, 1209600, q, 241920 * r);
  }

  lemma ProductFits(x: nat, t: nat, limit: nat)
    requires x <= limit < Weight(7) && t <= 4838400
    ensures x * t < MODULUS && limit < MODULUS
  {
    MulMono(t, BASE, x);
    assert Weight(7 + 1) == BASE * Weight(7);
  }

  lemma FourTimes(x: nat, t: nat)
    requires t <= 4838400
    ensures x * t / POW_TARGET_TIMESPAN <= 4 * x
  {
    MulMono(t, 4 * POW_TARGET_TIMESPAN, x);
    QuotientMono(x * t, 4 * x * POW_TARGET_TIMESPAN, POW_TARGET_TIMESPAN);
    DivUnique(4 * x * POW_TARGET_TIMESPAN, POW_TARGET_TIMESPAN, 4 * x, 0);
  }

  /** A period that took exactly the ideal time leaves the target alone. */
  lemma RetargetSteady(bits: Limb, limit: nat)
    requires !SignOf(bits) && Decode(bits) <= limit < Weight(7) < MODULUS
    ensures Decode(Encode(Retargeted(Decode(bits), POW_TARGET_TIMESPAN, limit))) == Decode(bits)
  {
    var x := Decode(bits);
    RetargetExact(x, POW_TARGET_TIMESPAN, limit);
    DivUnique(x * POW_TARGET_TIMESPAN, POW_TARGET_TIMESPAN, x, 0);
    EncodeExact(bits);
  }

  /** A slower period is never given a harder target. */
  lemma RetargetMonotone(bits: Limb, actual: int, actual': int, limit: nat)
    requires Decode(bits) <= limit < Weight(7) < MODULUS && actual <= actual'
    ensures Decode(Encode(Retargeted(Decode(bits), actual, limit)))
      <= Decode(Encode(Retargeted(Decode(bits), actual', limit)))
  {
    hide Decode, Encode, Retargeted;
    var x := Decode(bits);
    RetargetedRises(x, actual, actual', limit);
    EncodeMonotone(Retargeted(x, actual, limit), Retargeted(x, actual', limit));
  }

  lemma RetargetedRises(x: nat, actual: int, actual': int, limit: nat)
    requires x <= limit < Weight(7) < MODULUS && actual <= actual'
    ensures Retargeted(x, actual, limit) <= Retargeted(x, actual', limit) < MODULUS
  {
    hide Retargeted;
    var t, t' := ClampedTimespan(actual), ClampedTimespan(actual');
    RetargetExact(x, actual, limit);
    RetargetExact(x, actual', limit);
    assert x * t <= x * t' by { MulMono(t, t', x); }
    QuotientMono(x * t, x * t', POW_TARGET_TIMESPAN);
  }

  // ---------- Exponential rule ----------

  /** What the 64-bit offset arithmetic demands of its caller. */
  predicate OffsetFits(spacing: Int64, timeDiff: Int64, heightDiff: Int64)
  {
    && heightDiff + 1 < 0x8000_0000_0000_0000
    && -0x8000_0000_0000_0000 <= spacing * (heightDiff + 1) < 0x8000_0000_0000_0000
    && -0x8000_0000_0000_0000 <= timeDiff - spacing * (heightDiff + 1) < 0x8000_0000_0000_0000
  }

  method CalculateASERT(refTarget: Uint256, spacing: Int64, timeDiff: Int64, heightDiff: Int64,
                        powLimit: Uint256, halfLife: Int64) returns (next: Uint256)
    requires refTarget.Valid() && powLimit.Valid()
    requires InRange(refTarget.Value(), heightDiff, powLimit.Value(), halfLife) ==>
      OffsetFits(spacing, timeDiff, heightDiff)
    ensures fresh(next) && fresh(next.pn) && next.Valid()
    ensures next.Value() == Target(refTarget.Value(), spacing, timeDiff, heightDiff, powLimit.Value(), halfLife)
  {
    hide Limbs.Val, Weight, Clamp, Scale, Factor;
    var zero := refTarget.EqualTo(0);
    var c := refTarget.CompareTo(powLimit);
    var wide := TopLimbUsed(powLimit);
    if zero || c > 0 || heightDiff < 0 || halfLife <= 0 || wide {
      next := new Uint256.Copy(powLimit);
      return;
    }
    var exponent := ExponentOf(spacing, timeDiff, heightDiff, halfLife);
    var factor := FactorOf(exponent % 0x1_0000);
    next := new Uint256.Copy(refTarget);
    next.MulWordAssign(factor);
    FactorFits(refTarget.Value(), factor, powLimit.Value());
    ShiftAndClamp(next, exponent / 0x1_0000 - 16, powLimit);
  }

  method FactorOf(frac: nat) returns (factor: Limb)
    requires frac < 0x1_0000
    ensures factor == Factor(frac)
  {
    hide Poly, Weigh;
    PolyIs(frac);
    var square := frac * frac;
    var cube := square * frac;
    assert 0x1_0000 + Weigh(frac, square, cube) / 0x1_0000_0000_0000 == Factor(frac);
    factor := 0x1_0000 + Weigh(frac, square, cube) / 0x1_0000_0000_0000;
  }

  method TopLimbUsed(x: Uint256) returns (used: bool)
    requires x.Valid()
    ensures used <==> x.Value() >= Weight(7)
  {
    var top := new Uint256.Copy(x);
    var shift := 32 * (WIDTH - 1);
    top.ShiftRightAssign(shift);
    WeightIsPow2(WIDTH - 1);
    var none := top.EqualTo(0);
    used := !none;
    SmallQuotient(x.Value(), Weight(7));
  }

  lemma SmallQuotient(x: nat, d: nat)
    requires d > 0
    ensures x / d == 0 <==> x < d
  {
    DivMod(x, d);
    if x < d { DivUnique(x, d, 0, x); }
  }

  method ExponentOf(spacing: Int64, timeDiff: Int64, heightDiff: Int64, halfLife: Int64) returns (exponent: Int64)
    requires heightDiff >= 0 && halfLife > 0 && OffsetFits(spacing, timeDiff, heightDiff)
    ensures exponent == Exponent(timeDiff - spacing * (heightDiff + 1), halfLife)
    ensures -0x7FFF_FFFF_FFFF_0000 <= exponent <= 0x7FFF_FFFF_FFFF_0000
  {
    var due: Int64 := spacing * (heightDiff + 1);
    var offset: Int64 := timeDiff - due;
    if offset > MAX_OFFSET { offset := MAX_OFFSET; }
    if offset < -MAX_OFFSET { offset := -MAX_OFFSET; }
    var scaled: Int64 := offset * 0x1_0000;
    QuotShrinks(scaled, halfLife);
    exponent := Quot(scaled, halfLife);
  }

  lemma QuotShrinks(a: int, d: int)
    requires d > 0
    ensures a >= 0 ==> 0 <= Quot(a, d) <= a
    ensures a < 0 ==> a <= Quot(a, d) <= 0
  {
    if a >= 0 { DivShrinks(a, d); } else { DivShrinks(-a, d); }
  }

  lemma FactorFits(ref: nat, factor: nat, limit: nat)
    requires 0 < ref <= limit < Weight(7) && 0 < factor <= 0x1_FFFF
    ensures 0 < ref * factor < MODULUS && (ref * factor) % MODULUS == ref * factor
  {
    hide Weight;
    TopWeight();
    MulMono(factor, BASE, ref);
    MulMono(1, factor, ref);
    MultipleBelow(ref, Weight(7), BASE);
    NoWrap(ref * factor);
  }

  /** Scales by 2^k, losing nothing unnoticed, and clamps to [1, limit]. */
  method ShiftAndClamp(next: Uint256, k: int, powLimit: Uint256)
    requires next.Valid() && powLimit.Valid() && next.pn != powLimit.pn
    requires 0 < next.Value() && 0 < powLimit.Value() < Weight(7)
    modifies next.pn
    ensures next.Value() == Clamp(Scale(old(next.Value()), k), powLimit.Value())
  {
    hide Limbs.Val, Weight, Pow2, Scale;
    ghost var n, limit := next.Value(), powLimit.Value();
    ValBound(next.pn[..], WIDTH);
    if k <= 0 {
      ScaleDown(n, k);
      if -k >= 256 {
        next.AssignWord(0);
      } else {
        next.ShiftRightAssign(-k);
      }
    } else {
      ScaleUp(n, k, limit);
      if k >= 256 {
        next.Assign(powLimit);
      } else {
        var shifted := new Uint256.Copy(next);
        shifted.ShiftLeftAssign(k);
        var back := new Uint256.Copy(shifted);
        back.ShiftRightAssign(k);
        var d := back.CompareTo(next);
        if d != 0 {
          next.Assign(powLimit);
        } else {
          next.Assign(shifted);
        }
      }
    }
    var zero := next.EqualTo(0);
    var c := next.CompareTo(powLimit);
    if zero {
      next.AssignWord(1);
    } else if c > 0 {
      next.Assign(powLimit);
    }
  }

  lemma ScaleDown(n: nat, k: int)
    requires n < MODULUS && k <= 0
    ensures Scale(n, k) == n / Pow2(-k)
    ensures -k >= 256 ==> Scale(n, k) == 0
  {
    hide Pow2, Weight;
    Pow2Zero();
    if k == 0 { DivUnique(n, Pow2(0), n, 0); }
    if -k >= 256 { ShiftedOut(n, -k); }
  }

  lemma Pow2Zero()
    ensures Pow2(0) == 1
  {}

  lemma ShiftedOut(n: nat, k: nat)
    requires n < MODULUS && k >= 256
    ensures n / Pow2(k) == 0
  {
    hide Pow2, Weight;
    WeightIsPow2(WIDTH);
    Pow2Mono(32 * WIDTH, k);
    DivUnique(n, Pow2(k), 0, n);
  }

  /** A left shift comes back unchanged exactly when no bit was lost; otherwise the true value is past the limit. */
  lemma ScaleUp(n: nat, k: int, limit: nat)
    requires 0 < n < MODULUS && k > 0 && limit < Weight(7)
    ensures k >= 256 ==> Scale(n, k) > limit
    ensures k < 256 && (n * Pow2(k)) % MODULUS / Pow2(k) == n ==> (n * Pow2(k)) % MODULUS == Scale(n, k)
    ensures k < 256 && (n * Pow2(k)) % MODULUS / Pow2(k) != n ==> Scale(n, k) > limit
  {
    WeightIsPow2(WIDTH);
    assert Weight(7 + 1) == BASE * Weight(7);
    if k >= 256 {
      Pow2Mono(32 * WIDTH, k);
      MulMono(1, n, Pow2(k));
    } else {
      Pow2Add(k, 32 * WIDTH - k);
      LostBits(n, Pow2(k), Pow2(32 * WIDTH - k), MODULUS);
    }
  }

  lemma LostBits(n: nat, p: nat, q: nat, m: nat)
    requires p > 0 && p * q == m > 0
    ensures (n * p) % m / p == n ==> (n * p) % m == n * p
    ensures (n * p) % m / p != n ==> n * p >= m
  {
    var r := (n * p) % m;
    if n * p < m {
      DivUnique(n * p, m, 0, n * p);
      DivUnique(n * p, p, n, 0);
    } else {
      DivMod(r, p);
    }
  }

  /** The bits the rule gives after an anchor. */
  ghost function AsertBits(anchorBits: Limb, timeDiff: int, heightDiff: int): (bits: Limb)
  {
    PowLimitBounds();
    if Usable(anchorBits) && Decode(anchorBits) <= PowLimit()
    then Encode(Target(Decode(anchorBits), BLOCK_TIME_TARGET, timeDiff, heightDiff, PowLimit(), ASERT_HALF_LIFE))
    else POW_LIMIT_COMPACT
  }

  method CalculateASERTBits(anchorBits: Limb, anchorParentTime: Word64, parentTime: Word64, parentHeight: Word64)
    returns (bits: Limb)
    requires Usable(anchorBits) && Decode(anchorBits) <= PowLimit() ==>
      && DifferenceFits(Signed(parentTime), Signed(anchorParentTime))
      && DifferenceFits(Signed(parentHeight), ASERT_ANCHOR_HEIGHT)
      && (Signed(parentHeight) >= ASERT_ANCHOR_HEIGHT ==>
            OffsetFits(BLOCK_TIME_TARGET, Signed(parentTime) - Signed(anchorParentTime),
                       Signed(parentHeight) - ASERT_ANCHOR_HEIGHT))
    ensures bits == AsertBits(anchorBits, Signed(parentTime) - Signed(anchorParentTime),
                              Signed(parentHeight) - ASERT_ANCHOR_HEIGHT)
  {
    PowLimitBounds();
    var powLimit, _, _ := TargetFrom(POW_LIMIT_COMPACT);
    var refTarget, negative, overflow := TargetFrom(anchorBits);
    var zero := refTarget.EqualTo(0);
    var c := refTarget.CompareTo(powLimit);
    if negative || overflow || zero || c > 0 { return POW_LIMIT_COMPACT; }
    var next := CalculateASERT(refTarget, BLOCK_TIME_TARGET, Signed(parentTime) - Signed(anchorParentTime),
                               Signed(parentHeight) - ASERT_ANCHOR_HEIGHT, powLimit, ASERT_HALF_LIFE);
    bits := next.GetCompact(false);
  }

  /** The rule moves the right way through the compact encoding too: a later parent never gets a harder target. */
  lemma AsertBitsRise(anchorBits: Limb, t: int, t': int, heightDiff: int)
    requires t <= t'
    ensures Decode(AsertBits(anchorBits, t, heightDiff)) <= Decode(AsertBits(anchorBits, t', heightDiff))
  {
    hide Decode, Encode, Target;
    PowLimitBounds();
    if Usable(anchorBits) && Decode(anchorBits) <= PowLimit() {
      var ref, limit := Decode(anchorBits), PowLimit();
      TargetRisesWithTime(ref, BLOCK_TIME_TARGET, t, t', heightDiff, limit, ASERT_HALF_LIFE);
      EncodeMonotone(Target(ref, BLOCK_TIME_TARGET, t, heightDiff, limit, ASERT_HALF_LIFE),
                     Target(ref, BLOCK_TIME_TARGET, t', heightDiff, limit, ASERT_HALF_LIFE));
    }
  }

  /** A higher parent at the same time never gets an easier target. */
  lemma AsertBitsFall(anchorBits: Limb, t: int, h: int, h': int)
    requires h <= h'
    ensures Decode(AsertBits(anchorBits, t, h')) <= Decode(AsertBits(anchorBits, t, h))
  {
    hide Decode, Encode, Target;
    PowLimitBounds();
    if Usable(anchorBits) && Decode(anchorBits) <= PowLimit() {
      var ref, limit := Decode(anchorBits), PowLimit();
      TargetFallsWithHeight(ref, BLOCK_TIME_TARGET, t, h, h', limit, ASERT_HALF_LIFE);
      EncodeMonotone(Target(ref, BLOCK_TIME_TARGET, t, h', limit, ASERT_HALF_LIFE),
                     Target(ref, BLOCK_TIME_TARGET, t, h, limit, ASERT_HALF_LIFE));
    }
  }

  // ---------- Chain work ----------

  /** Expected hashes behind a block with this target. */
  ghost function Work(bits: Limb): (w: nat)
    ensures w < MODULUS
  {
    if !Usable(bits) then 0 else
      WorkBound(Decode(bits), MODULUS);
      MODULUS / (Decode(bits) + 1)
  }

  lemma WorkBound(t: nat, m: nat)
    requires t > 0 && m > 0
    ensures 0 <= m / (t + 1) < m
  {
    DivShrinks(m, t + 1);
    DivMod(m, t + 1);
    if m / (t + 1) == m { MulMono(2, t + 1, m); }
  }

  method GetBlockProof(bits: Limb) returns (proof: Digest)
    ensures Number(proof) == Work(bits)
  {
    var target, negative, overflow := TargetFrom(bits);
    var zero := target.EqualTo(0);
    if negative || overflow || zero {
      ZeroNumber(seq(32, _ => 0), 32);
      return seq(32, _ => 0);
    }
    BelowTop(bits);
    var work := WorkOf(target);
    proof := ToBytes(work);
  }

  method WorkOf(target: Uint256) returns (work: Uint256)
    requires target.Valid() && 0 < target.Value() && target.Value() + 1 < MODULUS
    ensures fresh(work) && fresh(work.pn) && work.Valid()
    ensures work.Value() == MODULUS / (target.Value() + 1)
  {
    hide Limbs.Val, Weight;
    ghost var t := target.Value();
    ProofQuotient(t, MODULUS);
    var divisor := new Uint256.Copy(target);
    var one := new Uint256(1);
    divisor.AddAssign(one);
    NoWrap(t + 1);
    work := target.Complement();
    var ok := work.DivAssign(divisor);
    work.AddAssign(one);
    NoWrap(MODULUS / (t + 1));
  }

  lemma {:induction false} ZeroNumber(b: seq<Byte>, n: nat)
    requires n <= |b|
    requires forall k :: 0 <= k < n ==> b[k] == 0
    ensures BigEndian(b, n) == 0
  {
    if n > 0 { ZeroNumber(b, n - 1); }
  }

  /** No compact value is 2^256 - 1, so target + 1 does not wrap. */
  lemma BelowTop(bits: Limb)
    requires !Overflows(bits)
    ensures Decode(bits) + 1 < MODULUS
  {
    if SizeOf(bits) <= 3 {
      SmallDecode(bits);
      assert Weight(8) == BASE * Weight(7);
    } else {
      var p := Pow256(SizeOf(bits) - 4);
      assert Decode(bits) == 0x100 * (WordOf(bits) * p) by {
        assert WordOf(bits) * (0x100 * p) == 0x100 * (WordOf(bits) * p);
      }
      assert Weight(8) == BASE * Weight(7);
    }
  }

  /** The quotient the code takes is floor(2^256 / (target + 1)). */
  lemma ProofQuotient(t: nat, m: nat)
    requires 0 < t && t + 1 < m
    ensures 0 <= (m - 1 - t) / (t + 1) && (m - 1 - t) / (t + 1) + 1 == m / (t + 1) < m
  {
    DivAddMultiple(m - 1 - t, 1, t + 1);
    DivShrinks(m - 1 - t, t + 1);
    WorkBound(t, m);
  }

  method AddChainWork(parentWork: Digest, bits: Limb) returns (total: Digest)
    ensures Number(total) == (Number(parentWork) + Work(bits)) % MODULUS
  {
    var sum := FromBytes(parentWork);
    var p := GetBlockProof(bits);
    var proof := FromBytes(p);
    sum.AddAssign(proof);
    total := ToBytes(sum);
  }

  /** A harder target is never worth less work. */
  lemma WorkMonotone(bits: Limb, bits': Limb)
    requires Usable(bits) && Usable(bits') && Decode(bits') <= Decode(bits)
    ensures Work(bits) <= Work(bits')
  {
    SmallerDivisor(MODULUS, Decode(bits') + 1, Decode(bits) + 1);
  }

  lemma SmallerDivisor(m: nat, d: nat, d': nat)
    requires 0 < d <= d'
    ensures m / d' <= m / d
  {
    DivMod(m, d);
    DivMod(m, d');
    DivShrinks(m, d');
    if m / d' > m / d {
      MulMono(m / d + 1, m / d', d);
      MulMono(d, d', m / d');
      Distribute(m / d, 1, d);
    }
  }
}
