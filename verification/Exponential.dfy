/**
 The cubic of the exponential difficulty rule follows 2^x within 0.013 percent. A polynomial of degree five
 serves as the yardstick: squaring it nearly doubles its exponent, which makes it a power of two up to a tiny
 error, and the cubic is compared with it. Both comparisons are polynomial inequalities on short intervals.
 */
module Exponential {
  import opened Limbs
  import opened Polynomials
  import Asert

  // ---------- Powers of real numbers ----------

  ghost function Power(x: real, n: nat): (p: real)
    ensures x >= 0.0 ==> p >= 0.0
    ensures x > 0.0 ==> p > 0.0
  {
    if n == 0 then 1.0 else PositiveProduct(x, Power(x, n - 1)); Mul(x, Power(x, n - 1))
  }

  lemma PositiveProduct(x: real, y: real)
    ensures x >= 0.0 && y >= 0.0 ==> Mul(x, y) >= 0.0
    ensures x > 0.0 && y > 0.0 ==> Mul(x, y) > 0.0
  {}

  lemma {:induction false} PowerProduct(x: real, y: real, n: nat)
    ensures Power(Mul(x, y), n) == Mul(Power(x, n), Power(y, n))
  {
    if n == 0 {
      assert Mul(1.0, 1.0) == 1.0;
    } else {
      hide Mul;
      PowerProduct(x, y, n - 1);
      Crossed(x, y, Power(x, n - 1), Power(y, n - 1));
    }
  }

  lemma Crossed(a: real, b: real, c: real, d: real)
    ensures Mul(Mul(a, b), Mul(c, d)) == Mul(Mul(a, c), Mul(b, d))
  {
    hide Mul;
    MulTurns(a, b, Mul(c, d));
    MulTurns(b, c, d);
    MulTurns(a, c, Mul(b, d));
  }

  lemma {:induction false} PowerAdd(x: real, m: nat, n: nat)
    ensures Power(x, m + n) == Mul(Power(x, m), Power(x, n))
  {
    if m == 0 {
      assert Mul(1.0, Power(x, n)) == Power(x, n);
    } else {
      hide Mul;
      PowerAdd(x, m - 1, n);
      MulTurns(x, Power(x, m - 1), Power(x, n));
    }
  }

  lemma {:induction false} PowerGrows(x: real, y: real, n: nat)
    requires 0.0 <= x <= y
    ensures Power(x, n) <= Power(y, n)
  {
    if n > 0 {
      hide Mul;
      PowerGrows(x, y, n - 1);
      ProductGrows(x, y, Power(x, n - 1), Power(y, n - 1));
    }
  }

  lemma ProductGrows(x: real, y: real, a: real, b: real)
    requires 0.0 <= x <= y && 0.0 <= a <= b
    ensures 0.0 <= Mul(x, a) <= Mul(y, b)
  {
    NonNegative(y - x, b);
    NonNegative(x, b - a);
    NonNegative(x, a);
    MulAdds(y - x, x, b);
    MulAdds(x, b - a, a);
  }

  // ---------- The yardstick ----------

  /** 10^6 * 64^5 times an approximation of 2^(y/64). */
  const HELPER: Poly :=
    Term(1073741824000000, Term(11629093715968, Term(62968823808, Term(227971072, Term(588736, Term(1788,
      Zero))))))

  const UNIT: real := 1073741824000000.0

  const AT_10: Poly :=
    Term(1196563680772480, Term(12959305857728, Term(70179077568, Term(253308512, Term(678136, Term(1788,
      Zero))))))

  const SQUARE_10: Poly :=
    Term(1431764642143785423649525350400, Term(31013269434758753416035450880, Term(335891079050110181936779264,
      Term(2425143793013300007190528, Term(13113373711491940550656, Term(57409170821280176128,
      Term(205689597890195968, Term(594515623570432, Term(1365699673408, Term(2425014336, Term(3196944,
      Zero)))))))))))

  const AT_26: Poly :=
    Term(1422962287193472, Term(15411273749184, Term(83452739520, Term(301286496, Term(821176, Term(1788,
      Zero))))))

  const SQUARE_26: Poly :=
    Term(2024821670774877088218359414784, Term(43859322685407157957220253696, Term(475007560772168365061492736,
      Term(3429664670621466035011584, Term(18587782025266603395072, Term(80685616346686740480,
      Term(282943041255191040, Term(793245475802112, Term(1751730532672, Term(2936525376, Term(3196944,
      Zero)))))))))))

  const AT_42: Poly :=
    Term(1692196329429376, Term(18327189482176, Term(99249054144, Term(358419040, Term(964216, Term(1788,
      Zero))))))

  const SQUARE_42: Poly :=
    Term(2863528417334253223105771749376, Term(62026405540989786886005604352, Term(671783644559210997517963264,
      Term(4850943210218867681312768, Term(26251287620632032053248, Term(112539534155932080128,
      Term(385397289803805184, Term(1046101363764224, Term(2211418981696, Term(3448036416, Term(3196944,
      Zero)))))))))))

  const AT_58: Poly :=
    Term(2012372269106560, Term(21794808644288, Term(118007440320, Term(424706144, Term(1107256, Term(1788,
      Zero))))))

  const SQUARE_58: Poly :=
    Term(4049642149469085138980635033600, Term(87718537052498222517214658560, Term(949963484737561646356025344,
      Term(6853232894162827383193600, Term(36894956786348916312064, Term(155698078398039218176,
      Term(519642437141246464, Term(1362511458946048, Term(2744765020480, Term(3959547456, Term(3196944,
      Zero)))))))))))

  const DOUBLE_20: Poly :=
    Term(1333434915778560, Term(28883363813376, Term(312812378112, Term(2257775616, Term(12280576, Term(57216,
      Zero))))))

  const DOUBLE_52: Poly :=
    Term(1885761369665536, Term(40847285082112, Term(442392139776, Term(3190205440, Term(16857856, Term(57216,
      Zero))))))

  lemma Square10()
    ensures Moved(HELPER, 10) == AT_10 && Product(AT_10, AT_10) == SQUARE_10
  {}

  lemma Square26()
    ensures Moved(HELPER, 26) == AT_26 && Product(AT_26, AT_26) == SQUARE_26
  {}

  lemma Square42()
    ensures Moved(HELPER, 42) == AT_42 && Product(AT_42, AT_42) == SQUARE_42
  {}

  lemma Square58()
    ensures Moved(HELPER, 58) == AT_58 && Product(AT_58, AT_58) == SQUARE_58
  {}

  lemma Double20()
    ensures AtDouble(Moved(HELPER, 20)) == DOUBLE_20
  {}

  lemma Double52()
    ensures AtDouble(Moved(HELPER, 52)) == DOUBLE_52
  {}

  /** k times one polynomial and l times another. */
  function Mix(k: int, p: Poly, l: int, q: Poly): Poly { Sum(Scaled(k, p), Scaled(l, q)) }

  lemma EvalMix(k: int, p: Poly, l: int, q: Poly, x: real)
    ensures Eval(Mix(k, p, l, q), x) == Mul(k as real, Eval(p, x)) + Mul(l as real, Eval(q, x))
  {
    hide Mul, Eval;
    EvalSum(Scaled(k, p), Scaled(l, q), x);
    EvalScaled(k, p, x);
    EvalScaled(l, q, x);
  }

  lemma Close10()
    ensures Settled(Mix(268436529741824000000, DOUBLE_20, -250000, SQUARE_10), 10)
    ensures Settled(Mix(-268434382258176000000, DOUBLE_20, 250000, SQUARE_10), 10)
  {}

  lemma Close26()
    ensures Settled(Mix(268436529741824000000, DOUBLE_52, -250000, SQUARE_26), 6)
    ensures Settled(Mix(-268434382258176000000, DOUBLE_52, 250000, SQUARE_26), 6)
  {}

  lemma Close42()
    ensures Settled(Mix(536873059483648000000, DOUBLE_20, -250000, SQUARE_42), 10)
    ensures Settled(Mix(-536868764516352000000, DOUBLE_20, 250000, SQUARE_42), 10)
  {}

  lemma Close58()
    ensures Settled(Mix(536873059483648000000, DOUBLE_52, -250000, SQUARE_58), 6)
    ensures Settled(Mix(-536868764516352000000, DOUBLE_52, 250000, SQUARE_58), 6)
  {}

  /** The square of a yardstick value against another one, up to one part in 250000. */
  ghost predicate Near(x: real, z: real, k: int)
  {
    Mul(((k * 249999) as real), Mul(UNIT, z)) <= Mul(250000.0, Mul(x, x)) <= Mul((k * 250001) as real, Mul(UNIT, z))
  }

  lemma OnPiece(m: int, at: Poly, square: Poly, d: int, double: Poly, k: int, r: nat, y: real)
    requires Moved(HELPER, m) == at && Product(at, at) == square && AtDouble(Moved(HELPER, d)) == double
    requires Settled(Mix(k * 268436529741824000000, double, -250000, square), r)
    requires Settled(Mix(-(k * 268434382258176000000), double, 250000, square), r)
    requires Within(y - m as real, r as real)
    ensures Near(Eval(HELPER, y), Eval(HELPER, 2.0 * (y - m as real) + d as real), k)
  {
    hide Eval, Moved, Product, AtDouble, Mix, Settled, Mul;
    var t := y - m as real;
    var x, z := Eval(HELPER, y), Eval(HELPER, 2.0 * t + d as real);
    EvalMoved(HELPER, m, t);
    EvalProduct(at, at, t);
    EvalAtDouble(Moved(HELPER, d), t);
    Twice(t);
    EvalMoved(HELPER, d, Mul(2.0, t));
    NotNegative(Mix(k * 268436529741824000000, double, -250000, square), r, t);
    NotNegative(Mix(-(k * 268434382258176000000), double, 250000, square), r, t);
    EvalMix(k * 268436529741824000000, double, -250000, square, t);
    EvalMix(-(k * 268434382258176000000), double, 250000, square, t);
    Unscaled(k, z, Mul(x, x));
  }

  lemma Twice(t: real)
    ensures Mul(2.0, t) == 2.0 * t
  {}

  lemma Unscaled(k: int, z: real, s: real)
    requires Mul((k * 268436529741824000000) as real, z) + Mul(-250000.0, s) >= 0.0
    requires Mul((-(k * 268434382258176000000)) as real, z) + Mul(250000.0, s) >= 0.0
    ensures Mul((k * 249999) as real, Mul(UNIT, z)) <= Mul(250000.0, s) <= Mul((k * 250001) as real, Mul(UNIT, z))
  {}

  // ---------- The yardstick is a power of two ----------

  ghost function Follow(f: nat): real { Eval(HELPER, f as real / 1024.0) / UNIT }

  lemma FollowPositive(f: nat)
    ensures Follow(f) > 0.0 && Follow(0) == 1.0
  {
    assert Eval(HELPER, 0.0) == UNIT;
    NoSmaller(HELPER.rest, f as real / 1024.0);
    NonNegative(f as real / 1024.0, Eval(HELPER.rest, f as real / 1024.0));
  }

  lemma {:induction false} NoSmaller(p: Poly, x: real)
    requires x >= 0.0 && NoMinus(p)
    ensures Eval(p, x) >= 0.0
  {
    if p.Term? {
      NoSmaller(p.rest, x);
      NonNegative(x, Eval(p.rest, x));
    }
  }

  predicate NoMinus(p: Poly) { p.Zero? || (p.c >= 0 && NoMinus(p.rest)) }

  /** The square of x is k times z up to one part in 250000. */
  ghost predicate Squared(x: real, z: real, k: int)
  {
    Mul(0.999996, Mul(k as real, z)) <= Mul(x, x) <= Mul(1.000004, Mul(k as real, z))
  }

  /** Squared, the value at f is the value at twice f, or twice the value at what twice f is beyond a whole. */
  lemma SquareDoubles(f: nat)
    requires f < 0x1_0000
    ensures var k, g := if f < 0x8000 then 1 else 2, if f < 0x8000 then 2 * f else 2 * f - 0x1_0000;
            Squared(Follow(f), Follow(g), k)
  {
    hide Eval, Moved, Product, AtDouble, Settled, Mix, Mul, Near, Squared;
    var y := f as real / 1024.0;
    if f < 0x8000 {
      if y <= 20.0 {
        Square10(); Double20(); Close10();
        OnPiece(10, AT_10, SQUARE_10, 20, DOUBLE_20, 1, 10, y);
      } else {
        Square26(); Double52(); Close26();
        OnPiece(26, AT_26, SQUARE_26, 52, DOUBLE_52, 1, 6, y);
      }
      assert 2.0 * y == (2 * f) as real / 1024.0;
      Normal(Eval(HELPER, y), Eval(HELPER, 2.0 * y), 1);
    } else {
      if y <= 52.0 {
        Square42(); Double20(); Close42();
        OnPiece(42, AT_42, SQUARE_42, 20, DOUBLE_20, 2, 10, y);
      } else {
        Square58(); Double52(); Close58();
        OnPiece(58, AT_58, SQUARE_58, 52, DOUBLE_52, 2, 6, y);
      }
      assert 2.0 * y - 64.0 == (2 * f - 0x1_0000) as real / 1024.0;
      Normal(Eval(HELPER, y), Eval(HELPER, 2.0 * y - 64.0), 2);
    }
  }

  lemma Normal(x: real, z: real, k: int)
    requires Near(x, z, k)
    ensures Squared(x / UNIT, z / UNIT, k)
  {
    var a, b := x / UNIT, z / UNIT;
    assert Mul(x, x) == UNIT * UNIT * Mul(a, a);
    assert Mul(UNIT, z) == UNIT * UNIT * b;
  }

  /** The n-th power of x is 2^j to within n parts in 250000. */
  ghost predicate Follows(x: real, n: nat, j: nat)
  {
    Mul(Power(0.999996, n), Power(2.0, j)) <= Power(x, n) <= Mul(Power(1.000004, n), Power(2.0, j))
  }

  /** Over k doublings the errors never add up to more. */
  lemma {:induction false} FollowsPower(f: nat, j: nat, d: nat, k: nat, n: nat)
    requires k <= 16 && n == Pow2(k) && d == Pow2(16 - k) && OnGrid(f, j, d, n)
    ensures Follows(Follow(f), n, j)
    decreases k
  {
    hide Mul, Power, Follow, Follows, OnGrid, Squared, Pow2;
    Doubling(k, n, 16 - k, d);
    if k == 0 {
      AtZero(f, j, d);
      FollowPositive(0);
      FirstPowers();
    } else {
      var g, j' := Halves(f, j, n, d);
      FollowsPower(g, j', 2 * d, k - 1, n / 2);
      SquareDoubles(f);
      FollowPositive(f);
      FollowPositive(g);
      Raised(Follow(f), Follow(g), if f < 0x8000 then 1 else 2, n / 2, j', j);
    }
  }

  lemma Doubling(k: nat, n: nat, e: nat, d: nat)
    requires n == Pow2(k) && d == Pow2(e)
    ensures 2 * d == Pow2(e + 1)
    ensures if k == 0 then n == 1 else n % 2 == 0 && n / 2 == Pow2(k - 1)
  {}

  lemma FirstPowers()
    ensures Follows(1.0, 1, 0)
  {}

  /** The fraction f is j of n equal steps d. */
  ghost predicate OnGrid(f: nat, j: nat, d: nat, n: nat) { n * d == 0x1_0000 && j < n && f == j * d }

  lemma AtZero(f: nat, j: nat, d: nat)
    requires OnGrid(f, j, d, 1)
    ensures f == 0 && j == 0
  {}

  /** Twice f, less a whole if it is that much, in terms of twice the step. */
  lemma Halves(f: nat, j: nat, n: nat, d: nat) returns (g: nat, j': nat)
    requires n % 2 == 0 && OnGrid(f, j, d, n)
    ensures f < 0x1_0000 && OnGrid(g, j', 2 * d, n / 2)
    ensures g == if f < 0x8000 then 2 * f else 2 * f - 0x1_0000
    ensures j' == if f < 0x8000 then j else j - n / 2
  {
    var m := n / 2;
    TwiceStep(m, d);
    StepsOrdered(j, m, d);
    StepsOrdered(j, n, d);
    j' := if j < m then j else j - m;
    g := if j < m then 2 * f else 2 * f - 0x1_0000;
    TwiceStep(j', d);
  }

  lemma TwiceStep(a: nat, d: nat)
    ensures a * (2 * d) == 2 * (a * d) == (2 * a) * d
  {}

  lemma StepsOrdered(j: nat, m: nat, d: nat)
    ensures j < m ==> j * d + d <= m * d
    ensures j >= m ==> (j - m) * d == j * d - m * d >= 0
  {
    if j < m {
      Distribute(j, 1, d);
      MulMono(j + 1, m, d);
    } else {
      Distribute(j - m, m, d);
    }
  }

  /** One squaring of the bounds. */
  lemma Raised(x: real, z: real, c: nat, n: nat, j': nat, j: nat)
    requires x > 0.0 && z > 0.0 && (c == 1 || c == 2) && j == (if c == 1 then j' else j' + n)
    requires Squared(x, z, c)
    requires Follows(z, n, j')
    ensures Follows(x, 2 * n, j)
  {
    hide Mul, Power;
    SquarePower(x, n);
    PositiveProduct(c as real, z);
    PositiveProduct(0.999996, Mul(c as real, z));
    PositiveProduct(x, x);
    PowerGrows(Mul(0.999996, Mul(c as real, z)), Mul(x, x), n);
    PowerGrows(Mul(x, x), Mul(1.000004, Mul(c as real, z)), n);
    Spread(0.999996, z, c, n, j', j);
    Spread(1.000004, z, c, n, j', j);
    var w := Power(c as real, n);
    Scales(Mul(Power(0.999996, n), w), Mul(Power(0.999996, n), Power(2.0, j')), Power(z, n));
    Scales(Mul(Power(1.000004, n), w), Power(z, n), Mul(Power(1.000004, n), Power(2.0, j')));
  }

  lemma Scales(a: real, x: real, y: real)
    requires a >= 0.0 && x <= y
    ensures Mul(a, x) <= Mul(a, y)
  {
    NonNegative(a, y - x);
    MulAdds(a, y - x, x);
  }

  lemma SquarePower(x: real, n: nat)
    ensures Power(x, 2 * n) == Power(Mul(x, x), n)
  {
    hide Mul, Power;
    PowerAdd(x, n, n);
    PowerProduct(x, x, n);
    assert n + n == 2 * n;
  }

  lemma Spread(e: real, z: real, c: nat, n: nat, j': nat, j: nat)
    requires e > 0.0 && z > 0.0 && (c == 1 || c == 2) && j == (if c == 1 then j' else j' + n)
    ensures Power(Mul(e, Mul(c as real, z)), n) == Mul(Mul(Power(e, n), Power(c as real, n)), Power(z, n))
    ensures Mul(Power(e, n), Power(c as real, n)) >= 0.0
    ensures Mul(Mul(Power(e, n), Power(c as real, n)), Mul(Power(e, n), Power(2.0, j')))
         == Mul(Power(e, 2 * n), Power(2.0, j))
  {
    hide Mul, Power;
    PowerProduct(e, Mul(c as real, z), n);
    PowerProduct(c as real, z, n);
    MulTurns(Power(e, n), Power(c as real, n), Power(z, n));
    PositiveProduct(Power(e, n), Power(c as real, n));
    Crossed(Power(e, n), Power(c as real, n), Power(e, n), Power(2.0, j'));
    PowerAdd(e, n, n);
    assert n + n == 2 * n;
    if c == 1 {
      PowerOfOne(n);
      OneTimes(Power(2.0, j'));
    } else {
      PowerAdd(2.0, n, j');
      assert n + j' == j;
    }
  }

  lemma {:induction false} PowerOfOne(n: nat)
    ensures Power(1.0, n) == 1.0
  {
    if n > 0 { PowerOfOne(n - 1); }
  }

  lemma OneTimes(x: real)
    ensures Mul(1.0, x) == x
  {}

  // ---------- The cubic against the yardstick ----------

  /** 2^64 plus the cubic, in the variable of the yardstick. */
  const CUBE: Poly :=
    Term(18446884811197906944, Term(200464817402930176, Term(1019028571160576, Term(5505074331648, Zero))))

  const ABOVE: Poly :=
    Term(18598114808951455223679811584000000, Term(-5613825871640341719795432226291712,
      Term(540331015398322681272367975497728, Term(-13641430937787334365806642331648,
      Term(86892958814154712108159205376, Term(263895210008745218993553408, Zero))))))

  const BELOW: Poly :=
    Term(18598114808951463813614403584000000, Term(6042863702815633103188321305100288,
      Term(-538007875843505311431018804150272, Term(13649841585830120792803720036352,
      Term(-86871238289516753174998810624, Term(-263829244451937633636974592, Zero))))))

  lemma Gaps()
    ensures Mix(147592399333750122479616, HELPER, -8589934592000000000, CUBE) == ABOVE
    ensures Sum(Mix(-147555505845602703376384, HELPER, 8589934592000000000, CUBE),
                Term(-2417851639229249759477760000000000, Zero)) == BELOW
  {}

  lemma Above2()
    ensures Settled(Moved(ABOVE, 2), 2)
  {}

  lemma Above5()
    ensures Settled(Moved(ABOVE, 5), 1)
  {}

  lemma Above7()
    ensures Settled(Moved(ABOVE, 7), 1)
  {}

  lemma Above10()
    ensures Settled(Moved(ABOVE, 10), 2)
  {}

  lemma Above20()
    ensures Settled(Moved(ABOVE, 20), 8)
  {}

  lemma Above38()
    ensures Settled(Moved(ABOVE, 38), 10)
  {}

  lemma Above50()
    ensures Settled(Moved(ABOVE, 50), 2)
  {}

  lemma Above54()
    ensures Settled(Moved(ABOVE, 54), 2)
  {}

  lemma Above57()
    ensures Settled(Moved(ABOVE, 57), 1)
  {}

  lemma Above60()
    ensures Settled(Moved(ABOVE, 60), 2)
  {}

  lemma Above65()
    ensures Settled(Moved(ABOVE, 65), 3)
  {}

  lemma Below9()
    ensures Settled(Moved(BELOW, 9), 9)
  {}

  lemma Below23()
    ensures Settled(Moved(BELOW, 23), 5)
  {}

  lemma Below32()
    ensures Settled(Moved(BELOW, 32), 4)
  {}

  lemma Below45()
    ensures Settled(Moved(BELOW, 45), 9)
  {}

  lemma Below60()
    ensures Settled(Moved(BELOW, 60), 6)
  {}

  lemma MiddleAt(p: Poly, m: int, r: nat, y: real)
    requires Settled(Moved(p, m), r) && Within(y - m as real, r as real)
    ensures Eval(p, y) >= 0.0
  {
    hide Eval, Moved, Settled;
    NotNegative(Moved(p, m), r, y - m as real);
    EvalMoved(p, m, y - m as real);
  }

  lemma StaysAbove(y: real)
    requires 0.0 <= y <= 64.0
    ensures Eval(ABOVE, y) >= 0.0
  {
    hide Eval, Moved, Settled;
    if y <= 4.0 {
      Above2();
      MiddleAt(ABOVE, 2, 2, y);
    } else if y <= 6.0 {
      Above5();
      MiddleAt(ABOVE, 5, 1, y);
    } else if y <= 8.0 {
      Above7();
      MiddleAt(ABOVE, 7, 1, y);
    } else if y <= 12.0 {
      Above10();
      MiddleAt(ABOVE, 10, 2, y);
    } else if y <= 28.0 {
      Above20();
      MiddleAt(ABOVE, 20, 8, y);
    } else if y <= 48.0 {
      Above38();
      MiddleAt(ABOVE, 38, 10, y);
    } else if y <= 52.0 {
      Above50();
      MiddleAt(ABOVE, 50, 2, y);
    } else if y <= 56.0 {
      Above54();
      MiddleAt(ABOVE, 54, 2, y);
    } else if y <= 58.0 {
      Above57();
      MiddleAt(ABOVE, 57, 1, y);
    } else if y <= 62.0 {
      Above60();
      MiddleAt(ABOVE, 60, 2, y);
    } else {
      Above65();
      MiddleAt(ABOVE, 65, 3, y);
    }
  }

  lemma StaysBelow(y: real)
    requires 0.0 <= y <= 64.0
    ensures Eval(BELOW, y) >= 0.0
  {
    hide Eval, Moved, Settled;
    if y <= 18.0 {
      Below9();
      MiddleAt(BELOW, 9, 9, y);
    } else if y <= 28.0 {
      Below23();
      MiddleAt(BELOW, 23, 5, y);
    } else if y <= 36.0 {
      Below32();
      MiddleAt(BELOW, 32, 4, y);
    } else if y <= 54.0 {
      Below45();
      MiddleAt(BELOW, 45, 9, y);
    } else {
      Below60();
      MiddleAt(BELOW, 60, 6, y);
    }
  }

  /** 2^64 plus the cubic at f, and the floor that the factor takes of it. */
  lemma CubeAt(f: nat)
    requires f < 0x1_0000
    ensures var v, t := Eval(CUBE, f as real / 1024.0), 281474976710656.0;
            v - t + 1.0 <= t * Asert.Factor(f) as real <= v
  {
    var x, p := f as real, Asert.Poly(f);
    Asert.PolyIs(f);
    hide Asert.Poly, Asert.Weigh, Eval;
    CubeIs(x, x / 1024.0);
    WeighReal(f, f * f, f * f * f);
    SquareAndCube(f);
    FloorReal(p, Asert.Factor(f));
  }

  lemma WeighReal(l: nat, s: nat, t: nat)
    ensures Asert.Weigh(l, s, t) as real
         == 195766423245049.0 * l as real + 971821376.0 * s as real + 5127.0 * t as real + 140737488355328.0
  {}

  lemma FloorReal(p: nat, factor: nat)
    requires factor == 0x1_0000 + p / 281474976710656
    ensures var v, t := 18446744073709551616.0 + p as real, 281474976710656.0; v - t + 1.0 <= t * factor as real <= v
  {
    DivMod(p, 281474976710656);
    assert 18446744073709551616 + p - 281474976710656 + 1 <= 281474976710656 * factor <= 18446744073709551616 + p;
    assert (281474976710656 * factor) as real == 281474976710656.0 * factor as real;
  }

  lemma CubeIs(x: real, y: real)
    requires x == 1024.0 * y
    ensures Eval(CUBE, y)
         == 18446884811197906944.0 + 195766423245049.0 * x + 971821376.0 * (x * x) + 5127.0 * (x * x * x)
  {
    var c3, c2 := CUBE.rest.rest.rest, CUBE.rest.rest;
    assert Eval(c3, y) == 5505074331648.0 == 5127.0 * 1073741824.0;
    assert Eval(c2, y) == 1019028571160576.0 + y * Eval(c3, y);
    Cubed(x, y, 195766423245049.0, 971821376.0, 5127.0);
  }

  lemma Cubed(x: real, y: real, a: real, b: real, c: real)
    requires x == 1024.0 * y
    ensures y * (a * 1024.0 + y * (b * 1048576.0 + y * (c * 1073741824.0))) == a * x + b * (x * x) + c * (x * x * x)
  {
    assert y * (c * 1073741824.0) == c * 1048576.0 * x;
    assert y * (b * 1048576.0 + c * 1048576.0 * x) == 1024.0 * (b * x + c * (x * x));
    assert y * (a * 1024.0 + 1024.0 * (b * x + c * (x * x))) == x * (a + (b * x + c * (x * x)));
  }

  lemma SquareAndCube(f: nat)
    ensures (f * f) as real == f as real * f as real && (f * f * f) as real == f as real * f as real * f as real
  {}

  /** The factor is within one part in 8000 of the yardstick. */
  lemma FactorNear(f: nat)
    requires f < 0x1_0000
    ensures Mul(0.999875, Follow(f)) <= Asert.Factor(f) as real / 65536.0 <= Mul(1.000125, Follow(f))
  {
    hide Eval, Mix, Mul, Sum;
    var y := f as real / 1024.0;
    CubeAt(f);
    Gaps();
    StaysAbove(y);
    StaysBelow(y);
    EvalMix(147592399333750122479616, HELPER, -8589934592000000000, CUBE, y);
    EvalMix(-147555505845602703376384, HELPER, 8589934592000000000, CUBE, y);
    EvalSum(Mix(-147555505845602703376384, HELPER, 8589934592000000000, CUBE),
            Term(-2417851639229249759477760000000000, Zero), y);
    EvalConstant(-2417851639229249759477760000000000, y);
    Compared(Eval(HELPER, y), Eval(CUBE, y), Asert.Factor(f) as real);
  }

  lemma EvalConstant(c: int, y: real)
    ensures Eval(Term(c, Zero), y) == c as real
  {}

  lemma Compared(u: real, v: real, factor: real)
    requires v - 281474976710656.0 + 1.0 <= 281474976710656.0 * factor <= v
    requires Mul(147592399333750122479616.0, u) + Mul(-8589934592000000000.0, v) >= 0.0
    requires Mul(-147555505845602703376384.0, u) + Mul(8589934592000000000.0, v)
          >= 2417851639229249759477760000000000.0
    ensures Mul(0.999875, u / UNIT) <= factor / 65536.0 <= Mul(1.000125, u / UNIT)
  {}

  /** The n-th power of the factor as a fraction, n being 65536, is 2^f to within the n-th power of 0.013 percent. */
  lemma FactorFollows(f: nat, n: nat)
    requires f < 0x1_0000 && n == 0x1_0000
    ensures var x := Asert.Factor(f) as real / 65536.0;
            Power(0.99987, n) * Power(2.0, f) <= Power(x, n) <= Power(1.00013, n) * Power(2.0, f)
  {
    hide Power, Follow, Follows, Mul, Pow2;
    var u := Follow(f);
    SixteenDoublings(n);
    FollowPositive(f);
    FactorNear(f);
    FollowsPower(f, f, 1, 16, n);
    Together(Asert.Factor(f) as real / 65536.0, u, f, n);
  }

  lemma Together(x: real, u: real, f: nat, n: nat)
    requires u > 0.0 && Follows(u, n, f) && Mul(0.999875, u) <= x <= Mul(1.000125, u)
    ensures Power(0.99987, n) * Power(2.0, f) <= Power(x, n) <= Power(1.00013, n) * Power(2.0, f)
  {
    hide Power, Mul;
    PositiveProduct(0.999875, u);
    PositiveProduct(1.000125, u);
    Budget();
    PowerGrows(Mul(0.999875, u), x, n);
    PowerGrows(x, Mul(1.000125, u), n);
    AtLeast(0.999875, 0.999996, 0.99987, u, n, f);
    AtMost(1.000125, 1.000004, 1.00013, u, n, f);
    IsProduct(Power(0.99987, n), Power(2.0, f));
    IsProduct(Power(1.00013, n), Power(2.0, f));
  }

  lemma AtLeast(a: real, e: real, b: real, u: real, n: nat, f: nat)
    requires a > 0.0 && e > 0.0 && u > 0.0 && 0.0 <= b <= Mul(a, e)
    requires Mul(Power(e, n), Power(2.0, f)) <= Power(u, n)
    ensures Mul(Power(b, n), Power(2.0, f)) <= Power(Mul(a, u), n)
  {
    hide Mul, Power;
    Compounded(a, e, u, n, f);
    Scales(Power(a, n), Mul(Power(e, n), Power(2.0, f)), Power(u, n));
    PowerGrows(b, Mul(a, e), n);
    Widened(Power(b, n), Power(Mul(a, e), n), Power(2.0, f));
  }

  lemma AtMost(a: real, e: real, b: real, u: real, n: nat, f: nat)
    requires a > 0.0 && e > 0.0 && u > 0.0 && 0.0 <= Mul(a, e) <= b
    requires Power(u, n) <= Mul(Power(e, n), Power(2.0, f))
    ensures Power(Mul(a, u), n) <= Mul(Power(b, n), Power(2.0, f))
  {
    hide Mul, Power;
    Compounded(a, e, u, n, f);
    Scales(Power(a, n), Power(u, n), Mul(Power(e, n), Power(2.0, f)));
    PowerGrows(Mul(a, e), b, n);
    Widened(Power(Mul(a, e), n), Power(b, n), Power(2.0, f));
  }

  lemma IsProduct(a: real, b: real)
    ensures Mul(a, b) == a * b
  {}

  lemma SixteenDoublings(n: nat)
    requires n == 0x1_0000
    ensures n == Pow2(16) && Pow2(0) == 1
  {
    var e := 8;
    Pow2Byte(e);
    Pow2Add(e, e);
  }

  lemma Budget()
    ensures 0.99987 <= Mul(0.999875, 0.999996) && 0.0 <= Mul(1.000125, 1.000004) <= 1.00013
  {}

  lemma Compounded(a: real, e: real, u: real, n: nat, f: nat)
    requires a > 0.0
    ensures Power(Mul(a, u), n) == Mul(Power(a, n), Power(u, n))
    ensures Mul(Power(a, n), Mul(Power(e, n), Power(2.0, f))) == Mul(Power(Mul(a, e), n), Power(2.0, f))
  {
    hide Mul, Power;
    PowerProduct(a, u, n);
    PowerProduct(a, e, n);
    MulTurns(Power(a, n), Power(e, n), Power(2.0, f));
  }

  lemma Widened(a: real, b: real, c: real)
    requires a <= b && c >= 0.0
    ensures Mul(a, c) <= Mul(b, c)
  {
    NonNegative(b - a, c);
    MulAdds(b - a, a, c);
  }
}
