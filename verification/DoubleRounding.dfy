/**
 A ratio is divided at eight decimals and then rescaled to four: two roundings. When that is
 the ratio rounded once.
 */
module DoubleRounding {
  import opened Wrappers
  import opened Digits
  import opened Decimal
  import Metrics

  /**
   The discarded digits of the fine quotient `q` (in units of which `e` make a coarse one) are
   exactly one half, and n/d lies strictly on the far side of it from what rounding to even keeps.
   */
  predicate FalseTie(n: int, d: int, e: int)
    requires d > 0 && e > 0
  {
    var q := RoundQuotient(n, d, HalfEven);
    var kept := RoundQuotient(q, e, HalfEven);
    || (2 * (q - kept * e) == e && n > q * d)
    || (2 * (q - kept * e) == -e && n < q * d)
  }

  /** Rounding to nearest twice is rounding once exactly when no inexact quotient was taken for a tie. */
  lemma TwoRoundings(n: int, d: int, e: int)
    requires d > 0 && e > 0 && e % 2 == 0
    ensures d * e > 0
    ensures RoundQuotient(RoundQuotient(n, d, HalfEven), e, HalfEven) == RoundQuotient(n, d * e, HalfEven)
       <==> !FalseTie(n, d, e)
  {
    hide RoundQuotient;
    PositiveProduct(d, e);
    var q := RoundQuotient(n, d, HalfEven);
    var p := RoundQuotient(q, e, HalfEven);
    QuotientExact(n, d, HalfEven, q);
    QuotientExact(q, e, HalfEven, p);
    QuotientExact(n, d * e, HalfEven, p);
    Triple(p, e, d);
    Apart(q, p * e, d);
    Combine(n - q * d, q - p * e, (q - p * e) * d, d, e, p);
  }

  lemma PositiveProduct(d: int, e: int)
    requires d > 0 && e > 0
    ensures d * e > 0
  {
  }

  lemma Triple(p: int, e: int, d: int)
    ensures p * (d * e) == (p * e) * d
  {
  }

  lemma Apart(q: int, y: int, d: int)
    ensures (q - y) * d == q * d - y * d
  {
  }

  /** The errors of the two roundings, `r` of n/d and `f` of the fine quotient, put together. */
  lemma Combine(r: int, f: int, w: int, d: int, e: int, p: int)
    requires d > 0 && e > 0 && e % 2 == 0 && w == f * d
    requires 2 * Abs(r) <= d && 2 * Abs(f) <= e && (2 * Abs(f) == e ==> p % 2 == 0)
    ensures (2 * Abs(r + w) <= d * e && (2 * Abs(r + w) == d * e ==> p % 2 == 0))
       <==> !((2 * f == e && r > 0) || (2 * f == -e && r < 0))
  {
    var half := e / 2;
    HalfOf(d, e, half);
    AtMostProduct(half, d);
    if f == half {
    } else if f == -half {
      NegatedProduct(half, d);
    } else {
      Inside(f, half, d);
    }
    CombineBounds(r, f, w, d, half, half * d, p);
  }

  lemma CombineBounds(r: int, f: int, w: int, d: int, half: int, top: int, p: int)
    requires 0 < d <= top && 2 * Abs(r) <= d && -half <= f <= half && half > 0 && (Abs(f) == half ==> p % 2 == 0)
    requires f == half ==> w == top
    requires f == -half ==> w == -top
    requires -half < f < half ==> -top + d <= w <= top - d
    ensures (2 * Abs(r + w) <= 2 * top && (2 * Abs(r + w) == 2 * top ==> p % 2 == 0))
       <==> !((f == half && r > 0) || (f == -half && r < 0))
  {
  }

  lemma HalfOf(d: int, e: int, half: int)
    requires e == 2 * half
    ensures d * e == 2 * (half * d)
  {
  }

  lemma AtMostProduct(half: int, d: int)
    requires half >= 1 && d > 0
    ensures half * d >= d
  {
    ScaleOrder(1, half, d);
  }

  lemma Inside(f: int, half: int, d: int)
    requires -half < f < half && d > 0
    ensures -half * d + d <= f * d <= half * d - d
  {
    ScaleOrder(f + 1, half, d);
    ScaleOrder(-half, f - 1, d);
    AddOne(f, d);
    AddOne(f - 1, d);
    NegatedProduct(half, d);
  }

  /** The fine quotient of two decimals stands for a tie at the coarse scale that it is not. */
  predicate MistakenForTie(a: Fixed, b: Fixed, fine: nat, coarse: nat)
    requires b.u > 0 && coarse < fine
  {
    PositiveProduct(b.u, Pow10(a.s));
    FalseTie(a.u * Pow10(fine + b.s), b.u * Pow10(a.s), Pow10(fine - coarse))
  }

  /** Dividing at a fine scale and rescaling is dividing at the coarse one, but for mistaken ties. */
  lemma DivThenRescaleExactly(a: Fixed, b: Fixed, fine: nat, coarse: nat, mode: RoundingMode)
    requires b.u > 0 && coarse < fine
    ensures Div(a, b, fine, mode).Success? && Div(a, b, coarse, mode).Success?
    ensures Rescale(Div(a, b, fine, mode).value, coarse, mode) == Div(a, b, coarse, mode).value
       <==> !(mode == HalfEven && MistakenForTie(a, b, fine, coarse))
  {
    if mode == BcmathTruncate {
      DivThenTruncate(a, b, fine, coarse);
    } else {
      hide Pow10, RoundQuotient, FalseTie;
      var n, d, e := a.u * Pow10(coarse + b.s), b.u * Pow10(a.s), Pow10(fine - coarse);
      PositiveProduct(b.u, Pow10(a.s));
      Pow10Add(coarse + b.s, fine - coarse);
      assert n * e == a.u * Pow10(fine + b.s) by {
        Associate(a.u, Pow10(coarse + b.s), e);
      }
      EvenPower(fine - coarse);
      TwoRoundings(n * e, d, e);
      CancelFactor(n, d, e, HalfEven);
    }
  }

  lemma EvenPower(k: nat)
    requires k > 0
    ensures Pow10(k) % 2 == 0
  {
    assert Pow10(k) == 2 * (5 * Pow10(k - 1));
  }

  /** Every ratio of the metrics: it prints the ratio rounded once unless half-even met a mistaken tie. */
  lemma RatioRoundedOnceExactly(a: Fixed, b: Fixed, mode: RoundingMode)
    requires b.u > 0
    ensures Metrics.RatioAt4(a, b, mode) == Div(a, b, 4, mode).value
       <==> !(mode == HalfEven && MistakenForTie(a, b, 8, 4))
  {
    hide MistakenForTie, Rescale, Div;
    DivThenRescaleExactly(a, b, 8, 4, mode);
  }

  // ---------------------------------------------------------------- when it cannot happen, and when it does

  /** A divisor below the rescaling factor leaves no quotient close enough to a tie to be mistaken for it. */
  lemma SmallDivisor(n: int, d: int, e: int)
    requires d > 0 && e > 0 && d < e && n % e == 0
    ensures !FalseTie(n, d, e)
  {
    hide RoundQuotient;
    var q := RoundQuotient(n, d, HalfEven);
    var kept := RoundQuotient(q, e, HalfEven);
    QuotientExact(n, d, HalfEven, q);
    if FalseTie(n, d, e) {
      var odd := if 2 * (q - kept * e) == e then 2 * kept + 1 else 2 * kept - 1;
      TieIsMultiple(q, kept, e, odd);
      Regrouped(q, e, odd, d);
      Regrouped(n, e, 2 * (n / e), 1);
      Apart(2 * (n / e), odd * d, e);
      SmallMultiple(2 * (n / e) - odd * d, e);
    }
  }

  lemma TieIsMultiple(q: int, kept: int, e: int, odd: int)
    requires odd == if 2 * (q - kept * e) == e then 2 * kept + 1 else 2 * kept - 1
    requires 2 * (q - kept * e) == e || 2 * (q - kept * e) == -e
    ensures 2 * q == odd * e
  {
  }

  lemma Regrouped(q: int, e: int, odd: int, d: int)
    requires 2 * q == odd * e
    ensures 2 * (q * d) == (odd * d) * e
  {
    assert (2 * q) * d == (odd * e) * d;
  }

  /** Under ten thousand counted trades the win rate is the ratio rounded once, in both modes. */
  lemma WinRateRoundedOnce(wins: nat, losses: nat, mode: RoundingMode)
    requires 0 < wins + losses < 10000
    ensures Metrics.WinRateOf(wins, losses, mode) == Div(Fixed(wins, 0), Fixed(wins + losses, 0), 4, mode).value
  {
    FourthPower();
    hide Pow10, FalseTie, Rescale, Div, Metrics.RatioAt4;
    assert wins * Pow10(8) == (wins * 10000) * 10000;
    SmallDivisor(wins * Pow10(8), wins + losses, Pow10(4));
    RatioRoundedOnceExactly(Fixed(wins, 0), Fixed(wins + losses, 0), mode);
  }

  lemma FourthPower()
    ensures Pow10(0) == 1 && Pow10(4) == 10000 && Pow10(8) == 100000000 && Pow10(12) == 1000000000000
  {
  }

  /** The mean of the R multiples 0.00010001 and 0 prints as 0.0000 in half-even mode; rounded once it is 0.0001. */
  lemma MeanRoundedTwice()
    ensures Metrics.AverageROf(Fixed(10001, 8), 2, HalfEven) == Fixed(0, 4)
    ensures Div(Fixed(10001, 8), Fixed(2, 0), 4, HalfEven) == Success(Fixed(1, 4))
    ensures MistakenForTie(Fixed(10001, 8), Fixed(2, 0), 8, 4)
  {
    FourthPower();
    hide Pow10, RoundQuotient;
    var n, d := 10001 * Pow10(8), 2 * Pow10(8);
    QuotientExact(n, d, HalfEven, 5000);
    QuotientExact(5000, 10000, HalfEven, 0);
    QuotientExact(10001 * 10000, d, HalfEven, 1);
  }
}
