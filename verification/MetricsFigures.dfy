/** What each printed figure of the metrics means, on the closed trades' results alone. */
module MetricsFigures {
  import opened Wrappers
  import opened Digits
  import opened Decimal
  import opened Metrics
  import StrategyMetrics
  import Text

  // ---------------------------------------------------------------- printed figures

  /** `units` of 10^-k, rounded to cents. */
  ghost predicate IsMoney(text: string, units: int, k: nat, mode: RoundingMode) {
    exists cents: int :: text == ToString(Fixed(cents, 2)) && RoundsTo(units * 100, Pow10(k), mode, cents)
  }

  /** num/den rounded at eight decimals, and that at four. */
  ghost predicate IsRatio(text: string, num: int, den: int, mode: RoundingMode)
    requires den > 0
  {
    exists fine: int, r: int ::
      && RoundsTo(num * 100000000, den, mode, fine) && RoundsTo(fine, 10000, mode, r)
      && text == ToString(Fixed(r, 4))
  }

  lemma Powers()
    ensures Pow10(0) == 1 && Pow10(2) == 100 && Pow10(4) == 10000 && Pow10(6) == 1000000 && Pow10(8) == 100000000
  {
  }

  lemma MoneyPrinted(units: int, k: nat, mode: RoundingMode)
    ensures IsMoney(PrintMoney(units, k, mode), units, k, mode)
  {
    Powers();
    hide ToString, Rescale, RoundsTo, Pow10;
    RescaleRounds(Fixed(units, k), 2, mode);
    var f := Rescale(Fixed(units, k), 2, mode);
    assert f == Fixed(f.u, 2);
  }

  /** Dividing at eight decimals, on the values. */
  lemma DivRounds(a: Fixed, b: Fixed, mode: RoundingMode)
    requires b.u > 0
    ensures b.u * Pow10(a.s) > 0
    ensures Div(a, b, 8, mode).Success? && Div(a, b, 8, mode).value.s == 8
    ensures RoundsTo(a.u * Pow10(b.s) * 100000000, b.u * Pow10(a.s), mode, Div(a, b, 8, mode).value.u)
  {
    Powers();
    hide Pow10, RoundsTo, RoundQuotient;
    Pow10Add(b.s, 8);
    Associate(a.u, Pow10(b.s), Pow10(8));
    ScaleOrder(0, b.u, Pow10(a.s));
    QuotientExact(a.u * Pow10(8 + b.s), b.u * Pow10(a.s), mode, Div(a, b, 8, mode).value.u);
  }

  lemma RatioPrinted(a: Fixed, b: Fixed, mode: RoundingMode)
    requires b.u > 0
    ensures b.u * Pow10(a.s) > 0
    ensures IsRatio(ToString(RatioAt4(a, b, mode)), a.u * Pow10(b.s), b.u * Pow10(a.s), mode)
  {
    Powers();
    hide ToString, RoundsTo, Pow10, RoundQuotient, Div;
    DivRounds(a, b, mode);
    var q := Div(a, b, 8, mode).value;
    QuotientExact(q.u, 10000, mode, RoundQuotient(q.u, 10000, mode));
    assert RatioAt4(a, b, mode) == Fixed(RoundQuotient(q.u, 10000, mode), 4);
  }

  /** A factor common to both sides of a ratio does not show. */
  lemma RatioCancels(text: string, num: int, den: int, c: int, mode: RoundingMode)
    requires den > 0 && c > 0 && den * c > 0 && IsRatio(text, num * c, den * c, mode)
    ensures IsRatio(text, num, den, mode)
  {
    hide ToString, RoundsTo, RoundQuotient;
    var fine: int, r: int :| RoundsTo(num * c * 100000000, den * c, mode, fine) && RoundsTo(fine, 10000, mode, r)
                             && text == ToString(Fixed(r, 4));
    QuotientExact(num * c * 100000000, den * c, mode, fine);
    CancelFactor(num * 100000000, den, c, mode);
    assert num * c * 100000000 == num * 100000000 * c;
    QuotientExact(num * 100000000, den, mode, fine);
  }

  // ---------------------------------------------------------------- the summary

  /** The gains of a series, and its losses as a magnitude. */
  function Gained(us: seq<int>): nat {
    if us == [] then 0 else Gained(us[..|us| - 1]) + if us[|us| - 1] > 0 then us[|us| - 1] else 0
  }

  function Lost(us: seq<int>): nat {
    if us == [] then 0 else Lost(us[..|us| - 1]) + if us[|us| - 1] < 0 then -us[|us| - 1] else 0
  }

  function Wins(us: seq<int>): nat {
    if us == [] then 0 else Wins(us[..|us| - 1]) + if us[|us| - 1] > 0 then 1 else 0
  }

  function Losses(us: seq<int>): nat {
    if us == [] then 0 else Losses(us[..|us| - 1]) + if us[|us| - 1] < 0 then 1 else 0
  }

  lemma {:induction false} GainsAndLosses(us: seq<int>)
    ensures Sum(Positives(us)) == Gained(us) && |Positives(us)| == Wins(us)
    ensures Sum(Negatives(us)) + Lost(us) == 0 && |Negatives(us)| == Losses(us)
    ensures (Gained(us) > 0 <==> Wins(us) > 0) && (Lost(us) > 0 <==> Losses(us) > 0)
  {
    hide Positives, Negatives, Sum;
    if us == [] {
      NoResults();
    } else {
      var n := |us| - 1;
      GainsAndLosses(us[..n]);
      PositivesNext(us);
      NegativesNext(us);
    }
  }

  lemma NoResults()
    ensures Positives([]) == [] && Negatives([]) == [] && Sum([]) == 0
  {
  }

  lemma PositivesNext(us: seq<int>)
    requires us != []
    ensures var n := |us| - 1;
            var before, after := Positives(us[..n]), Positives(us);
            && Sum(after) == Sum(before) + (if us[n] > 0 then us[n] else 0)
            && |after| == |before| + if us[n] > 0 then 1 else 0
  {
    var n := |us| - 1;
    AppendedSum(Positives(us[..n]), us[n]);
    hide Sum;
  }

  lemma NegativesNext(us: seq<int>)
    requires us != []
    ensures var n := |us| - 1;
            var before, after := Negatives(us[..n]), Negatives(us);
            && Sum(after) == Sum(before) + (if us[n] < 0 then us[n] else 0)
            && |after| == |before| + if us[n] < 0 then 1 else 0
  {
    var n := |us| - 1;
    AppendedSum(Negatives(us[..n]), us[n]);
    hide Sum;
  }

  lemma AppendedSum(us: seq<int>, x: int)
    ensures Sum(us + [x]) == Sum(us) + x && us + [] == us
  {
    assert (us + [x])[..|us|] == us;
  }

  /** `x` is the largest result of the series. */
  predicate IsLargest(us: seq<int>, x: int) {
    x in us && forall i :: 0 <= i < |us| ==> us[i] <= x
  }

  predicate IsSmallest(us: seq<int>, x: int) {
    x in us && forall i :: 0 <= i < |us| ==> x <= us[i]
  }

  /**
   The summary of the results `us` (in units of 10^-k) and of R multiples that add up to `r` units
   of 10^-m over `count` trades.
   */
  ghost predicate SummaryMeans(s: Summary, us: seq<int>, k: nat, r: int, m: nat, count: nat, mode: RoundingMode) {
    && s.wins == Wins(us) && s.losses == Losses(us) && s.wins + s.losses + s.breakeven == |us|
    && IsMoney(s.totalPnl, Gained(us) - Lost(us), k, mode)
    && (if us == [] then s.bestTrade == "0.00" && s.worstTrade == "0.00"
        else && (exists x :: IsLargest(us, x) && IsMoney(s.bestTrade, x, k, mode))
             && (exists x :: IsSmallest(us, x) && IsMoney(s.worstTrade, x, k, mode)))
    && (if Wins(us) + Losses(us) == 0 then s.winRate == "0.0000"
        else IsRatio(s.winRate, Wins(us), Wins(us) + Losses(us), mode))
    && (if count == 0 then s.averageR == "0.0000"
        else count * Pow10(m) > 0 && IsRatio(s.averageR, r, count * Pow10(m), mode))
    && (if Losses(us) > 0 then
          && Lost(us) > 0 && s.profitFactor.Some?
          && IsRatio(s.profitFactor.value, Gained(us), Lost(us), mode)
        else if Wins(us) > 0 then s.profitFactor == None
        else s.profitFactor == Some("0"))
  }

  lemma ZeroDigits()
    ensures AbsDigits(Fixed(0, 2)) == "000" && AbsDigits(Fixed(0, 4)) == "00000"
  {
    assert PrintNat(0) == "0";
    assert Zeros(2) == "00";
    assert Zeros(4) == Zeros(2) + Zeros(2);
  }

  lemma ZeroTexts()
    ensures ToString(Fixed(0, 2)) == "0.00" && ToString(Fixed(0, 4)) == "0.0000"
  {
    hide AbsDigits;
    ZeroDigits();
    assert "000"[..1] == "00000"[..1] == "0" && "000"[1..] == "00" && "00000"[1..] == "0000";
  }

  lemma ZeroPrinted(mode: RoundingMode)
    ensures PrintMoney(0, 0, mode) == "0.00" && ToString(Rescale(ZERO, RATIO_SCALE, mode)) == "0.0000"
  {
    ZeroTexts();
    hide ToString;
  }

  lemma {:induction false} NetIsGainLessLoss(us: seq<int>)
    ensures Sum(us) == Gained(us) - Lost(us)
  {
    if us != [] {
      NetIsGainLessLoss(us[..|us| - 1]);
    }
  }

  lemma WinRateMeans(wins: nat, losses: nat, mode: RoundingMode)
    ensures if wins + losses == 0 then ToString(WinRateOf(wins, losses, mode)) == "0.0000"
            else IsRatio(ToString(WinRateOf(wins, losses, mode)), wins, wins + losses, mode)
  {
    Powers();
    ZeroPrinted(mode);
    hide ToString, Pow10, RatioAt4, Rescale;
    if wins + losses > 0 {
      RatioPrinted(Fixed(wins, 0), Fixed(wins + losses, 0), mode);
    }
  }

  lemma AverageMeans(r: int, m: nat, count: nat, mode: RoundingMode)
    ensures if count == 0 then ToString(AverageROf(Fixed(r, m), count, mode)) == "0.0000"
            else count * Pow10(m) > 0
                 && IsRatio(ToString(AverageROf(Fixed(r, m), count, mode)), r, count * Pow10(m), mode)
  {
    Powers();
    ZeroPrinted(mode);
    hide ToString, Pow10, RatioAt4, Rescale;
    if count > 0 {
      RatioPrinted(Fixed(r, m), Fixed(count, 0), mode);
    }
  }

  lemma ProfitFactorMeans(us: seq<int>, k: nat, mode: RoundingMode)
    ensures var pf := ProfitFactor(Positives(us), Negatives(us), k, mode);
            if Losses(us) > 0 then Lost(us) > 0 && pf.Some? && IsRatio(pf.value, Gained(us), Lost(us), mode)
            else if Wins(us) > 0 then pf == None
            else pf == Some("0")
  {
    GainsAndLosses(us);
    hide ToString, Pow10, RatioAt4, Sum, Positives, Negatives, Gained, Lost, Wins, Losses;
    if Losses(us) > 0 {
      var gained, lost := Fixed(Gained(us), k), Fixed(Lost(us), k);
      RatioPrinted(gained, lost, mode);
      RatioCancels(ToString(RatioAt4(gained, lost, mode)), Gained(us), Lost(us), Pow10(k), mode);
    }
  }

  lemma ExtremesMean(s: Summary, us: seq<int>, k: nat, mode: RoundingMode)
    requires BestPrinted(us, k, mode, s.bestTrade) && WorstPrinted(us, k, mode, s.worstTrade)
    ensures if us == [] then s.bestTrade == "0.00" && s.worstTrade == "0.00"
            else && (exists x :: IsLargest(us, x) && IsMoney(s.bestTrade, x, k, mode))
                 && (exists x :: IsSmallest(us, x) && IsMoney(s.worstTrade, x, k, mode))
  {
    hide ToString, PrintMoney, IsMoney, Pow10;
    if us == [] {
      ZeroPrinted(mode);
    } else {
      var best :| IsBest(us, best) && s.bestTrade == PrintMoney(best, k, mode);
      var worst :| IsWorst(us, worst) && s.worstTrade == PrintMoney(worst, k, mode);
      MoneyPrinted(best, k, mode);
      MoneyPrinted(worst, k, mode);
      assert IsLargest(us, best) && IsSmallest(us, worst);
    }
  }

  /** What a summary prints is what the results of the closed trades say. */
  lemma SummaryFigures(s: Summary, us: seq<int>, k: nat, rs: seq<Fixed>, mode: RoundingMode)
    requires IsSummary(s, us, k, rs, mode)
    ensures SummaryMeans(s, us, k, Sum(InUnits(rs, CommonScale(rs))), CommonScale(rs), |rs|, mode)
  {
    hide ToString, PrintMoney, WinRateOf, AverageROf, ProfitFactor, BestPrinted, WorstPrinted, IsMoney, IsRatio, Pow10,
      IsLargest, IsSmallest, Gained, Lost, Wins, Losses, Sum, Positives, Negatives, InUnits, CommonScale;
    GainsAndLosses(us);
    NetIsGainLessLoss(us);
    MoneyPrinted(Sum(us), k, mode);
    WinRateMeans(Wins(us), Losses(us), mode);
    AverageMeans(Sum(InUnits(rs, CommonScale(rs))), CommonScale(rs), |rs|, mode);
    ProfitFactorMeans(us, k, mode);
    ExtremesMean(s, us, k, mode);
  }

  // ---------------------------------------------------------------- aggregate, equity curve, strategies

  /** `cents` over `count`, rounded at eight decimals and then to cents. */
  ghost predicate IsMean(text: string, cents: int, count: nat, mode: RoundingMode)
    requires count > 0
  {
    exists fine: int, mean: int ::
      && RoundsTo(cents * 100000000, count * 100, mode, fine) && RoundsTo(fine, 1000000, mode, mean)
      && text == ToString(Fixed(mean, 2))
  }

  /** Where the series stands after its first `i` results: what was gained less what was lost. */
  function Level(us: seq<int>, i: nat): int
    requires i <= |us|
  {
    Gained(us[..i]) - Lost(us[..i])
  }

  ghost predicate IsHighest(us: seq<int>, x: int) {
    && (exists i: nat :: i <= |us| && Level(us, i) == x)
    && (forall i: nat :: i <= |us| ==> Level(us, i) <= x)
  }

  ghost predicate IsLowest(us: seq<int>, x: int) {
    && (exists i: nat :: i <= |us| && Level(us, i) == x)
    && (forall i: nat :: i <= |us| ==> x <= Level(us, i))
  }

  /** The deepest fall from a level to a later one. */
  ghost predicate IsDeepest(us: seq<int>, fall: int) {
    && (exists i: nat, j: nat :: i <= j <= |us| && Level(us, i) - Level(us, j) == fall)
    && (forall i: nat, j: nat :: i <= j <= |us| ==> Level(us, i) - Level(us, j) <= fall)
  }

  lemma LevelIsEquity(us: seq<int>, i: nat)
    requires i <= |us|
    ensures Level(us, i) == Equity(us, i)
  {
    NetIsGainLessLoss(us[..i]);
  }

  lemma LevelsExactly(us: seq<int>)
    ensures forall x :: IsPeak(us, x) ==> IsHighest(us, x)
    ensures forall x :: IsTrough(us, x) ==> IsLowest(us, x)
    ensures forall x :: IsMaxDrop(us, x) ==> IsDeepest(us, x)
  {
    hide Level, Equity;
    forall i: nat | i <= |us|
      ensures Level(us, i) == Equity(us, i)
    {
      LevelIsEquity(us, i);
    }
  }

  /** The aggregate of a series, its expectancy taken from the total as it was printed. */
  ghost predicate AggregateMeans(a: Aggregate, us: seq<int>, k: nat, mode: RoundingMode) {
    && a.contributingTrades == |us|
    && IsMoney(a.grossProfit, Gained(us), k, mode)
    && IsMoney(a.grossLoss, -(Lost(us) as int), k, mode)
    && (exists drop :: IsDeepest(us, drop) && IsMoney(a.maxDrawdown, drop, k, mode))
    && (exists peak :: IsHighest(us, peak) && IsMoney(a.equityPeak, peak, k, mode))
    && (exists trough :: IsLowest(us, trough) && IsMoney(a.equityTrough, trough, k, mode))
    && (if us == [] then a.expectancy == "0"
        else exists cents: int :: a.summary.totalPnl == ToString(Fixed(cents, 2))
                                  && IsMean(a.expectancy, cents, |us|, mode))
  }

  lemma MeanPrinted(cents: int, count: nat, mode: RoundingMode)
    requires count > 0
    ensures IsMean(ToString(Expectancy(ToString(Fixed(cents, 2)), count, mode)), cents, count, mode)
  {
    Powers();
    RoundTrip(Fixed(cents, 2));
    hide ToString, FromString, RoundsTo, Pow10, RoundQuotient, Div;
    var total, n := Fixed(cents, 2), Fixed(count, 0);
    DivRounds(total, n, mode);
    var q := Div(total, n, 8, mode).value;
    QuotientExact(q.u, 1000000, mode, RoundQuotient(q.u, 1000000, mode));
    assert Expectancy(ToString(total), count, mode) == Fixed(RoundQuotient(q.u, 1000000, mode), 2);
  }

  lemma NoMean(total: string, mode: RoundingMode)
    ensures ToString(Expectancy(total, 0, mode)) == "0"
  {
    assert PrintNat(0) == "0" && PadStart("0", 1) == "0";
    hide FromString;
  }

  lemma AggregateFigures(a: Aggregate, us: seq<int>, k: nat, rs: seq<Fixed>, mode: RoundingMode)
    requires IsAggregate(a, us, k, mode) && IsSummary(a.summary, us, k, rs, mode)
    requires a.expectancy == ToString(Expectancy(a.summary.totalPnl, |us|, mode))
    ensures AggregateMeans(a, us, k, mode)
  {
    hide ToString, WinRateOf, AverageROf, ProfitFactor, BestPrinted, WorstPrinted, IsMoney, Pow10, IsMean, Expectancy,
      Gained, Lost, Wins, Losses, Sum, Positives, Negatives, IsMaxDrop, IsPeak, IsTrough, PrintMoney, IsDeepest,
      IsHighest, IsLowest;
    GainsAndLosses(us);
    LevelsExactly(us);
    MoneyPrinted(Gained(us), k, mode);
    MoneyPrinted(-(Lost(us) as int), k, mode);
    var drop :| IsMaxDrop(us, drop) && a.maxDrawdown == PrintMoney(drop, k, mode);
    var peak :| IsPeak(us, peak) && a.equityPeak == PrintMoney(peak, k, mode);
    var trough :| IsTrough(us, trough) && a.equityTrough == PrintMoney(trough, k, mode);
    MoneyPrinted(drop, k, mode);
    MoneyPrinted(peak, k, mode);
    MoneyPrinted(trough, k, mode);
    if us == [] {
      NoMean(a.summary.totalPnl, mode);
    } else {
      var cents := TotalPrinted(Sum(us), k, mode);
      MeanPrinted(cents, |us|, mode);
    }
  }

  lemma TotalPrinted(units: int, k: nat, mode: RoundingMode) returns (cents: int)
    ensures PrintMoney(units, k, mode) == ToString(Fixed(cents, 2))
  {
    hide ToString, Rescale;
    cents := Rescale(Fixed(units, k), 2, mode).u;
  }

  /** A point of the equity curve: its day, and everything up to it. */
  lemma PointFigures(points: seq<DailyPnl>, i: nat, mode: RoundingMode)
    requires i < |points|
    ensures var k := CommonScale(NetsOfDays(points));
            && PointAt(points, i, mode).day == points[i].day
            && IsMoney(PointAt(points, i, mode).cumulativePnl, Sum(InUnits(NetsOfDays(points), k)[..i + 1]), k, mode)
  {
    hide ToString, PrintMoney, IsMoney, Sum, CommonScale;
    var k := CommonScale(NetsOfDays(points));
    MoneyPrinted(Sum(InUnits(NetsOfDays(points), k)[..i + 1]), k, mode);
  }

  /** A trade is filed under its tag as written, or as untagged when there is nothing but blanks in it. */
  lemma TagMeans(t: MetricTrade)
    ensures t.strategy.None? ==> StrategyMetrics.Tag(t) == "(untagged)"
    ensures t.strategy.Some? ==>
              StrategyMetrics.Tag(t)
              == if Text.JsTrim(t.strategy.value) == "" then "(untagged)" else t.strategy.value
  {
    hide Text.JsTrim;
  }

  // ---------------------------------------------------------------- the results, on the trades

  /** A number that the metrics read of a trade: the result of a closed one, and the R multiple of a closed one. */
  datatype Column = NetPnl | RMultiple

  predicate Has(t: MetricTrade, c: Column) {
    t.netPnl.Some? && (c == RMultiple ==> t.rMultiple.Some?)
  }

  function TextOf(t: MetricTrade, c: Column): string
    requires Has(t, c)
  {
    if c == NetPnl then t.netPnl.value else t.rMultiple.value
  }

  /** `values` are what the trades at `places`, in order, have in the column, and no other has anything there. */
  ghost predicate ReadsAt(trades: seq<MetricTrade>, c: Column, places: seq<nat>, values: seq<Fixed>) {
    && (forall i, j :: 0 <= i < j < |places| ==> places[i] < places[j])
    && (forall j :: 0 <= j < |places| ==> places[j] < |trades| && Has(trades[places[j]], c))
    && (forall i: nat :: i < |trades| && Has(trades[i], c) ==> i in places)
    && |values| == |places|
    && forall j :: 0 <= j < |values| ==> FromString(TextOf(trades[places[j]], c)) == Success(values[j])
  }

  ghost predicate IsColumn(trades: seq<MetricTrade>, c: Column, values: seq<Fixed>) {
    exists places :: ReadsAt(trades, c, places, values)
  }

  /** `us` are the values in units of 10^-k. */
  ghost predicate AtOneScale(us: seq<int>, k: nat, values: seq<Fixed>) {
    && |us| == |values|
    && forall i :: 0 <= i < |us| ==> values[i].s <= k && us[i] == values[i].u * Pow10(k - values[i].s)
  }

  function Values(trades: seq<MetricTrade>, c: Column): seq<Fixed> {
    if c == NetPnl then Nets(trades) else RMultiples(trades)
  }

  lemma ReadsNext(trades: seq<MetricTrade>, c: Column, places: seq<nat>, values: seq<Fixed>)
    requires trades != [] && Has(trades[|trades| - 1], c) && FromString(TextOf(trades[|trades| - 1], c)).Success?
    requires ReadsAt(trades[..|trades| - 1], c, places, values)
    ensures var n := |trades| - 1;
            ReadsAt(trades, c, places + [n], values + [FromString(TextOf(trades[n], c)).value])
  {
    hide FromString, TextOf, Has;
    var n := |trades| - 1;
    var front, more := trades[..n], places + [n];
    forall j | 0 <= j < |more|
      ensures more[j] < |trades| && Has(trades[more[j]], c)
    {
      assert j < n ==> front[j] == trades[j];
    }
    forall i: nat | i < |trades| && Has(trades[i], c)
      ensures i in more
    {
      if i < n {
        assert front[i] == trades[i];
        assert i in places;
      } else {
        assert more[|places|] == i;
      }
    }
  }

  lemma ReadsSkip(trades: seq<MetricTrade>, c: Column, places: seq<nat>, values: seq<Fixed>)
    requires trades != [] && !Has(trades[|trades| - 1], c)
    requires ReadsAt(trades[..|trades| - 1], c, places, values)
    ensures ReadsAt(trades, c, places, values)
  {
    hide FromString, TextOf, Has;
    var n := |trades| - 1;
    forall i: nat | i < |trades| && Has(trades[i], c)
      ensures i in places
    {
      assert trades[..n][i] == trades[i];
    }
  }

  lemma {:induction false} ColumnReads(trades: seq<MetricTrade>, c: Column) returns (places: seq<nat>)
    requires Parses(trades)
    ensures ReadsAt(trades, c, places, Values(trades, c))
  {
    hide FromString, ReadsAt, Nets, RMultiples;
    if trades == [] {
      places := [];
      NothingRead(c);
    } else {
      var n := |trades| - 1;
      var before := ColumnReads(trades[..n], c);
      assert ParsesOne(trades[n]);
      ValuesNext(trades, c);
      if Has(trades[n], c) {
        ReadsNext(trades, c, before, Values(trades[..n], c));
        places := before + [n];
      } else {
        ReadsSkip(trades, c, before, Values(trades[..n], c));
        places := before;
      }
    }
  }

  lemma ValuesNext(trades: seq<MetricTrade>, c: Column)
    requires trades != [] && ParsesOne(trades[|trades| - 1])
    ensures var n := |trades| - 1;
            Values(trades, c)
            == if Has(trades[n], c) then Values(trades[..n], c) + [FromString(TextOf(trades[n], c)).value]
               else Values(trades[..n], c)
  {
    hide FromString;
  }

  lemma NothingRead(c: Column)
    ensures ReadsAt([], c, [], Values([], c))
  {
  }

  lemma ParsesExactly(trades: seq<MetricTrade>)
    ensures Parses(trades) <==>
              forall i, c :: 0 <= i < |trades| && Has(trades[i], c) ==> FromString(TextOf(trades[i], c)).Success?
  {
    hide FromString;
    forall i | 0 <= i < |trades|
      ensures ParsesOne(trades[i]) <==> forall c :: Has(trades[i], c) ==> FromString(TextOf(trades[i], c)).Success?
    {
      var t := trades[i];
      assert Has(t, NetPnl) ==> TextOf(t, NetPnl) == t.netPnl.value;
      assert Has(t, RMultiple) ==> TextOf(t, RMultiple) == t.rMultiple.value;
    }
    hide ParsesOne;
  }

  /** The summary of a list of trades: its figures are those of the two columns. */
  lemma SummaryOnTrades(trades: seq<MetricTrade>, s: Summary, mode: RoundingMode)
      returns (nets: seq<Fixed>, us: seq<int>, k: nat, rs: seq<Fixed>, ru: seq<int>, m: nat)
    requires Parses(trades)
    requires IsSummary(s, InUnits(Nets(trades), CommonScale(Nets(trades))), CommonScale(Nets(trades)),
                       RMultiples(trades), mode)
    ensures IsColumn(trades, NetPnl, nets) && AtOneScale(us, k, nets)
    ensures IsColumn(trades, RMultiple, rs) && AtOneScale(ru, m, rs)
    ensures SummaryMeans(s, us, k, Gained(ru) - Lost(ru), m, |rs|, mode)
    ensures us == InUnits(Nets(trades), CommonScale(Nets(trades))) && k == CommonScale(Nets(trades))
  {
    hide IsSummary, SummaryMeans, ReadsAt, Nets, RMultiples, Gained, Lost, CommonScale, Pow10;
    nets, rs := Nets(trades), RMultiples(trades);
    k, m := CommonScale(nets), CommonScale(rs);
    us, ru := InUnits(nets, k), InUnits(rs, m);
    var netPlaces := ColumnReads(trades, NetPnl);
    var rPlaces := ColumnReads(trades, RMultiple);
    SummaryFigures(s, us, k, rs, mode);
    NetIsGainLessLoss(ru);
  }
}
