/** One-pass performance metrics over a series of trades. */
module Metrics {
  import opened Wrappers
  import opened Digits
  import opened Decimal

  const CURRENCY_SCALE: nat := 2
  const RATIO_SCALE: nat := 4
  const ZERO: Fixed := Fixed(0, 0)

  /** A trade reduced to what the metrics need; an open trade has no net result. */
  datatype MetricTrade = MetricTrade(netPnl: Option<string>, rMultiple: Option<string>, strategy: Option<string>)

  datatype Summary = Summary(
    tradeCount: nat, wins: nat, losses: nat, breakeven: nat, winRate: string, totalPnl: string,
    profitFactor: Option<string>, averageR: string, bestTrade: string, worstTrade: string)

  datatype Aggregate = Aggregate(
    summary: Summary, contributingTrades: nat, grossProfit: string, grossLoss: string,
    expectancy: string, maxDrawdown: string, equityPeak: string, equityTrough: string)

  datatype DailyPnl = DailyPnl(day: string, netPnl: string)

  datatype EquityPoint = EquityPoint(day: string, cumulativePnl: string)

  // ---------------------------------------------------------------- the series

  predicate ParsesOne(t: MetricTrade) {
    t.netPnl.Some? ==>
      FromString(t.netPnl.value).Success? && (t.rMultiple.Some? ==> FromString(t.rMultiple.value).Success?)
  }

  predicate Parses(trades: seq<MetricTrade>) {
    forall i :: 0 <= i < |trades| ==> ParsesOne(trades[i])
  }

  function Value(str: string): Fixed {
    var f := FromString(str);
    if f.Success? then f.value else ZERO
  }

  /** The net results of the closed trades, in order. */
  function Nets(trades: seq<MetricTrade>): (nets: seq<Fixed>)
    ensures |nets| <= |trades|
  {
    if trades == [] then []
    else
      var last := trades[|trades| - 1];
      Nets(trades[..|trades| - 1]) + if last.netPnl.None? then [] else [Value(last.netPnl.value)]
  }

  /** The R multiples of the closed trades that have one. */
  function RMultiples(trades: seq<MetricTrade>): seq<Fixed> {
    if trades == [] then []
    else
      var last := trades[|trades| - 1];
      RMultiples(trades[..|trades| - 1])
      + if last.netPnl.None? || last.rMultiple.None? then [] else [Value(last.rMultiple.value)]
  }

  predicate ScaleWithin(nets: seq<Fixed>, k: nat) {
    forall i :: 0 <= i < |nets| ==> nets[i].s <= k
  }

  function CommonScale(nets: seq<Fixed>): (k: nat)
    ensures ScaleWithin(nets, k)
  {
    if nets == [] then 0 else MaxScale(CommonScale(nets[..|nets| - 1]), nets[|nets| - 1].s)
  }

  /** The series counted in units of 10^-k. */
  function InUnits(nets: seq<Fixed>, k: nat): (us: seq<int>)
    requires ScaleWithin(nets, k)
    ensures |us| == |nets|
    ensures forall i :: 0 <= i < |nets| ==> us[i] == Units(nets[i], k)
  {
    seq(|nets|, i requires 0 <= i < |nets| => Units(nets[i], k))
  }

  function Sum(us: seq<int>): int {
    if us == [] then 0 else Sum(us[..|us| - 1]) + us[|us| - 1]
  }

  function Positives(us: seq<int>): seq<int> {
    if us == [] then []
    else Positives(us[..|us| - 1]) + if us[|us| - 1] > 0 then [us[|us| - 1]] else []
  }

  function Negatives(us: seq<int>): seq<int> {
    if us == [] then []
    else Negatives(us[..|us| - 1]) + if us[|us| - 1] < 0 then [us[|us| - 1]] else []
  }

  /** The equity after the first i results; zero before any. */
  function Equity(us: seq<int>, i: nat): int
    requires i <= |us|
  {
    Sum(us[..i])
  }

  ghost predicate IsPeak(us: seq<int>, peak: int) {
    && (exists i :: 0 <= i <= |us| && Equity(us, i) == peak)
    && (forall i :: 0 <= i <= |us| ==> Equity(us, i) <= peak)
  }

  ghost predicate IsTrough(us: seq<int>, trough: int) {
    && (exists i :: 0 <= i <= |us| && Equity(us, i) == trough)
    && (forall i :: 0 <= i <= |us| ==> Equity(us, i) >= trough)
  }

  /** `drop` is the largest fall from an earlier point of the series to a later one. */
  ghost predicate IsMaxDrop(us: seq<int>, drop: int) {
    && (exists i, j :: 0 <= i <= j <= |us| && Equity(us, i) - Equity(us, j) == drop)
    && (forall i, j :: 0 <= i <= j <= |us| ==> Equity(us, i) - Equity(us, j) <= drop)
  }

  ghost predicate IsBest(us: seq<int>, best: int) {
    best in us && forall i :: 0 <= i < |us| ==> us[i] <= best
  }

  ghost predicate IsWorst(us: seq<int>, worst: int) {
    worst in us && forall i :: 0 <= i < |us| ==> us[i] >= worst
  }

  /** A value of `units` * 10^-k as the metrics print money. */
  function PrintMoney(units: int, k: nat, mode: RoundingMode): string {
    ToString(Rescale(Fixed(units, k), CURRENCY_SCALE, mode))
  }

  function RatioAt4(a: Fixed, b: Fixed, mode: RoundingMode): Fixed
    requires b.u != 0
  {
    Rescale(Div(a, b, 8, mode).value, RATIO_SCALE, mode)
  }

  // ---------------------------------------------------------------- exactness of the running values

  /** A running value holds `units` * 10^-k exactly. */
  predicate Holds(f: Fixed, units: int, k: nat) {
    f.s <= k && Units(f, k) == units
  }

  lemma HoldsZero(k: nat)
    ensures Holds(ZERO, 0, k)
  {
  }

  lemma HoldsAdd(a: Fixed, x: int, b: Fixed, y: int, k: nat)
    requires Holds(a, x, k) && Holds(b, y, k)
    ensures Holds(Add(a, b), x + y, k)
  {
    AddExact(a, b, k);
  }

  lemma HoldsNegated(a: Fixed, x: int, k: nat)
    requires Holds(a, x, k)
    ensures Holds(Mul(a, Fixed(-1, 0)), -x, k)
  {
    assert (a.u * -1) * Pow10(k - a.s) == -(a.u * Pow10(k - a.s));
  }

  lemma HoldsCmp(a: Fixed, x: int, b: Fixed, y: int, k: nat)
    requires Holds(a, x, k) && Holds(b, y, k)
    ensures Cmp(a, b) > 0 <==> x > y
    ensures Cmp(a, b) < 0 <==> x < y
  {
    CmpExact(a, b, k);
  }

  /** Printing depends on the value alone, not on the scale the running value happens to have. */
  lemma HoldsPrint(a: Fixed, x: int, k: nat, scale: nat, mode: RoundingMode)
    requires Holds(a, x, k)
    ensures Rescale(a, scale, mode) == Rescale(Fixed(x, k), scale, mode)
  {
    assert Pow10(0) == 1;
    if scale <= k {
      ExtendThenRound(a, k, scale, mode);
      assert Rescale(a, k, mode) == Fixed(x, k);
    } else {
      Pow10Add(k - a.s, scale - k);
      assert a.u * (Pow10(k - a.s) * Pow10(scale - k)) == x * Pow10(scale - k);
    }
  }

  // ---------------------------------------------------------------- one step of the series

  lemma EquityStep(us: seq<int>, x: int)
    ensures forall i :: 0 <= i <= |us| ==> Equity(us + [x], i) == Equity(us, i)
    ensures Equity(us + [x], |us| + 1) == Equity(us, |us|) + x
  {
    var vs := us + [x];
    assert forall i :: 0 <= i <= |us| ==> vs[..i] == us[..i];
    assert vs[..|us| + 1] == vs;
    assert us[..|us|] == us;
    assert vs[..|vs| - 1] == us;
  }

  lemma PeakStep(us: seq<int>, x: int, peak: int, next: int)
    requires IsPeak(us, peak)
    requires next == var now := Equity(us, |us|) + x; if now > peak then now else peak
    ensures IsPeak(us + [x], next)
  {
    EquityStep(us, x);
    var i :| 0 <= i <= |us| && Equity(us, i) == peak;
    assert Equity(us + [x], i) == peak;
    assert Equity(us + [x], |us| + 1) == Equity(us, |us|) + x;
  }

  lemma TroughStep(us: seq<int>, x: int, trough: int, next: int)
    requires IsTrough(us, trough)
    requires next == var now := Equity(us, |us|) + x; if now < trough then now else trough
    ensures IsTrough(us + [x], next)
  {
    EquityStep(us, x);
    var i :| 0 <= i <= |us| && Equity(us, i) == trough;
    assert Equity(us + [x], i) == trough;
    assert Equity(us + [x], |us| + 1) == Equity(us, |us|) + x;
  }

  /** The fall from the running peak is the largest fall ending at the new point. */
  lemma DropStep(us: seq<int>, x: int, drop: int, peak: int, next: int)
    requires IsMaxDrop(us, drop) && IsPeak(us + [x], peak)
    requires next == var fall := peak - Equity(us + [x], |us| + 1); if fall > drop then fall else drop
    ensures IsMaxDrop(us + [x], next)
  {
    EquityStep(us, x);
    var vs := us + [x];
    var n := |us| + 1;
    forall i, j | 0 <= i <= j <= n
      ensures Equity(vs, i) - Equity(vs, j) <= next
    {
      if j < n {
        assert Equity(us, i) - Equity(us, j) <= drop;
      }
    }
    if next == drop {
      var i, j :| 0 <= i <= j <= |us| && Equity(us, i) - Equity(us, j) == drop;
      assert Equity(vs, i) - Equity(vs, j) == next;
    } else {
      var i :| 0 <= i <= n && Equity(vs, i) == peak;
      assert Equity(vs, i) - Equity(vs, n) == next;
    }
  }

  lemma SeriesStart()
    ensures IsPeak([], 0) && IsTrough([], 0) && IsMaxDrop([], 0)
  {
    assert Equity([], 0) == 0;
    assert Equity([], 0) - Equity([], 0) == 0;
  }

  lemma NetsStep(trades: seq<MetricTrade>, i: nat)
    requires i < |trades|
    ensures Nets(trades[..i + 1])
         == if trades[i].netPnl.None? then Nets(trades[..i]) else Nets(trades[..i]) + [Value(trades[i].netPnl.value)]
    ensures RMultiples(trades[..i + 1])
         == if trades[i].netPnl.None? || trades[i].rMultiple.None? then RMultiples(trades[..i])
            else RMultiples(trades[..i]) + [Value(trades[i].rMultiple.value)]
  {
    assert trades[..i + 1][..i] == trades[..i];
  }

  lemma {:induction false} SeriesPrefix(trades: seq<MetricTrade>, i: nat)
    requires i <= |trades|
    ensures Nets(trades[..i]) <= Nets(trades)
    ensures RMultiples(trades[..i]) <= RMultiples(trades)
    decreases |trades| - i
  {
    hide Nets, RMultiples;
    if i < |trades| {
      SeriesPrefix(trades, i + 1);
      NetsStep(trades, i);
      if trades[i].netPnl.Some? {
        PrefixOfLonger(Nets(trades[..i]), [Value(trades[i].netPnl.value)], Nets(trades));
      }
      if trades[i].netPnl.Some? && trades[i].rMultiple.Some? {
        PrefixOfLonger(RMultiples(trades[..i]), [Value(trades[i].rMultiple.value)], RMultiples(trades));
      }
    } else {
      assert trades[..i] == trades;
    }
  }

  lemma PrefixOfLonger(a: seq<Fixed>, more: seq<Fixed>, b: seq<Fixed>)
    requires a + more <= b
    ensures a <= b
  {
    assert forall i :: 0 <= i < |a| ==> a[i] == (a + more)[i];
  }

  /** One more element of a series, counted at a scale that covers the whole of it. */
  lemma UnitsOfStep(all: seq<Fixed>, before: seq<Fixed>, f: Fixed, k: nat)
    requires ScaleWithin(all, k) && before + [f] <= all
    ensures ScaleWithin(before, k) && f.s <= k && ScaleWithin(before + [f], k)
    ensures InUnits(before + [f], k) == InUnits(before, k) + [Units(f, k)]
  {
    assert all[|before|] == (before + [f])[|before|];
    assert forall i :: 0 <= i < |before| ==> before[i] == (before + [f])[i] == all[i];
  }

  /** Total result = gross profit + gross loss, before any rounding. */
  lemma {:induction false} TotalIsProfitPlusLoss(us: seq<int>)
    ensures Sum(us) == Sum(Positives(us)) + Sum(Negatives(us))
  {
    if us != [] {
      var rest, last := us[..|us| - 1], us[|us| - 1];
      TotalIsProfitPlusLoss(rest);
      SumStep(Positives(rest), last);
      SumStep(Negatives(rest), last);
      assert Positives(rest) + [] == Positives(rest) && Negatives(rest) + [] == Negatives(rest);
    }
  }

  lemma SumStep(us: seq<int>, x: int)
    ensures Sum(us + [x]) == Sum(us) + x
  {
    assert (us + [x])[..|us|] == us;
  }

  /** The largest fall is a magnitude and never exceeds the range of the curve. */
  lemma DrawdownWithinRange(us: seq<int>, peak: int, trough: int, drop: int)
    requires IsPeak(us, peak) && IsTrough(us, trough) && IsMaxDrop(us, drop)
    ensures trough <= 0 <= peak
    ensures 0 <= drop <= peak - trough
    ensures peak - Sum(us) <= drop && Sum(us) <= peak
  {
    assert us[..|us|] == us;
    assert Equity(us, 0) == 0;
    assert Equity(us, 0) - Equity(us, 0) == 0;
    var i, j :| 0 <= i <= j <= |us| && Equity(us, i) - Equity(us, j) == drop;
    var p :| 0 <= p <= |us| && Equity(us, p) == peak;
    assert Equity(us, p) - Equity(us, |us|) <= drop;
  }

  lemma {:induction false} PositiveSum(us: seq<int>)
    ensures Sum(Positives(us)) >= |Positives(us)|
  {
    if us != [] {
      PositiveSum(us[..|us| - 1]);
      SumStep(Positives(us[..|us| - 1]), us[|us| - 1]);
      assert Positives(us[..|us| - 1]) + [] == Positives(us[..|us| - 1]);
    }
  }

  lemma {:induction false} NegativeSum(us: seq<int>)
    ensures Sum(Negatives(us)) <= -|Negatives(us)|
  {
    if us != [] {
      NegativeSum(us[..|us| - 1]);
      SumStep(Negatives(us[..|us| - 1]), us[|us| - 1]);
      assert Negatives(us[..|us| - 1]) + [] == Negatives(us[..|us| - 1]);
    }
  }

  /** A quotient depends on the two values alone. */
  lemma HoldsDiv(a: Fixed, x: int, b: Fixed, y: int, k: nat, scale: nat, mode: RoundingMode)
    requires Holds(a, x, k) && Holds(b, y, k) && y != 0
    ensures b.u != 0
    ensures Div(a, b, scale, mode) == Div(Fixed(x, k), Fixed(y, k), scale, mode)
  {
    Pow10Add(scale + b.s, k - b.s);
    Pow10Add(a.s, k - a.s);
    NonZeroProduct(b.u, Pow10(a.s));
    CommonFactor(a.u, b.u, Pow10(k - a.s), Pow10(k - b.s), Pow10(scale + b.s), Pow10(a.s));
    CancelSigned(a.u * Pow10(scale + b.s), b.u * Pow10(a.s), Pow10(k - a.s) * Pow10(k - b.s), mode);
  }

  lemma CommonFactor(a: int, b: int, p: int, q: int, n: int, d: int)
    requires p > 0 && q > 0
    ensures p * q > 0
    ensures (a * p) * (n * q) == (a * n) * (p * q)
    ensures (b * q) * (d * p) == (b * d) * (p * q)
  {
  }

  // ---------------------------------------------------------------- summary

  /** Wins over decided trades: a break-even trade is in neither count. */
  function WinRateOf(wins: nat, losses: nat, mode: RoundingMode): Fixed {
    if wins + losses > 0 then RatioAt4(Fixed(wins, 0), Fixed(wins + losses, 0), mode)
    else Rescale(ZERO, RATIO_SCALE, mode)
  }

  /** The mean over the trades that have an R multiple. */
  function AverageROf(rSum: Fixed, rCount: nat, mode: RoundingMode): Fixed {
    if rCount > 0 then RatioAt4(rSum, Fixed(rCount, 0), mode) else Rescale(ZERO, RATIO_SCALE, mode)
  }

  /** What the best (or worst) trade prints as: the extreme net result, or zero for none. */
  ghost predicate BestPrinted(us: seq<int>, k: nat, mode: RoundingMode, printed: string) {
    if us == [] then printed == PrintMoney(0, 0, mode)
    else exists best :: IsBest(us, best) && printed == PrintMoney(best, k, mode)
  }

  ghost predicate WorstPrinted(us: seq<int>, k: nat, mode: RoundingMode, printed: string) {
    if us == [] then printed == PrintMoney(0, 0, mode)
    else exists worst :: IsWorst(us, worst) && printed == PrintMoney(worst, k, mode)
  }

  /** The summary of a series of net results (in units of 10^-k) and of R multiples. */
  ghost predicate IsSummary(s: Summary, us: seq<int>, k: nat, rs: seq<Fixed>, mode: RoundingMode) {
    var gains, losses := Positives(us), Negatives(us);
    var rk := CommonScale(rs);
    && s.wins == |gains| && s.losses == |losses| && s.breakeven == |us| - |gains| - |losses|
    && s.totalPnl == PrintMoney(Sum(us), k, mode)
    && BestPrinted(us, k, mode, s.bestTrade)
    && WorstPrinted(us, k, mode, s.worstTrade)
    && s.winRate == ToString(WinRateOf(|gains|, |losses|, mode))
    && s.averageR == ToString(AverageROf(Fixed(Sum(InUnits(rs, rk)), rk), |rs|, mode))
    && s.profitFactor == ProfitFactor(gains, losses, k, mode)
  }

  /** Null means no losing trade at all and some winning one. */
  function ProfitFactor(gains: seq<int>, losses: seq<int>, k: nat, mode: RoundingMode): Option<string> {
    if Sum(losses) != 0 then Some(ToString(RatioAt4(Fixed(Sum(gains), k), Fixed(-Sum(losses), k), mode)))
    else if gains != [] then None
    else Some("0")
  }

  function Closed(trades: seq<MetricTrade>): (closed: seq<MetricTrade>)
    ensures forall i :: 0 <= i < |closed| ==> closed[i].netPnl.Some?
  {
    if trades == [] then []
    else
      var last := trades[|trades| - 1];
      Closed(trades[..|trades| - 1]) + if last.netPnl.Some? then [last] else []
  }

  lemma {:induction false} ClosedKeepsNets(trades: seq<MetricTrade>)
    ensures Parses(Closed(trades)) <==> Parses(trades)
    ensures Nets(Closed(trades)) == Nets(trades)
    ensures RMultiples(Closed(trades)) == RMultiples(trades)
  {
    hide Parses, Nets, RMultiples, ParsesOne, Value;
    if trades != [] {
      var rest, last := trades[..|trades| - 1], trades[|trades| - 1];
      ClosedKeepsNets(rest);
      assert rest + [last] == trades;
      AppendTrade(rest, last);
      if last.netPnl.Some? {
        AppendTrade(Closed(rest), last);
      } else {
        assert Closed(trades) == Closed(rest);
        NoResultParses(last);
      }
    }
  }

  lemma NoResultParses(t: MetricTrade)
    requires t.netPnl.None?
    ensures ParsesOne(t)
  {
  }

  lemma AppendTrade(trades: seq<MetricTrade>, t: MetricTrade)
    ensures Parses(trades + [t]) <==> Parses(trades) && ParsesOne(t)
    ensures Nets(trades + [t]) == if t.netPnl.None? then Nets(trades) else Nets(trades) + [Value(t.netPnl.value)]
    ensures RMultiples(trades + [t])
         == if t.netPnl.None? || t.rMultiple.None? then RMultiples(trades)
           else RMultiples(trades) + [Value(t.rMultiple.value)]
  {
    ParsesStep(trades, t);
    assert (trades + [t])[..|trades|] == trades;
  }

  lemma ParsesStep(trades: seq<MetricTrade>, t: MetricTrade)
    ensures Parses(trades + [t]) <==> Parses(trades) && ParsesOne(t)
  {
    var longer := trades + [t];
    assert longer[|trades|] == t;
    assert forall i :: 0 <= i < |trades| ==> longer[i] == trades[i];
  }

  lemma BestStep(us: seq<int>, x: int, best: int)
    requires us == [] || IsBest(us, best)
    ensures IsBest(us + [x], if us == [] || x > best then x else best)
  {
    var next := if us == [] || x > best then x else best;
    assert next in us + [x] by {
      assert (us + [x])[|us|] == x;
      assert us != [] ==> best in us;
    }
  }

  lemma WorstStep(us: seq<int>, x: int, worst: int)
    requires us == [] || IsWorst(us, worst)
    ensures IsWorst(us + [x], if us == [] || x < worst then x else worst)
  {
    var next := if us == [] || x < worst then x else worst;
    assert next in us + [x] by {
      assert (us + [x])[|us|] == x;
      assert us != [] ==> worst in us;
    }
  }

  lemma SignedStep(us: seq<int>, x: int)
    ensures Positives(us + [x]) == Positives(us) + if x > 0 then [x] else []
    ensures Negatives(us + [x]) == Negatives(us) + if x < 0 then [x] else []
    ensures Sum(us + [x]) == Sum(us) + x
    ensures Sum(Positives(us + [x])) == Sum(Positives(us)) + if x > 0 then x else 0
    ensures Sum(Negatives(us + [x])) == Sum(Negatives(us)) + if x < 0 then x else 0
  {
    assert (us + [x])[..|us|] == us;
    SumStep(Positives(us), x);
    SumStep(Negatives(us), x);
    assert Positives(us) + [] == Positives(us) && Negatives(us) + [] == Negatives(us);
  }

  /** The running counters and sums agree with the series seen so far. */
  predicate Tallied(us: seq<int>, k: nat, wins: int, losses: int, breakeven: int,
                    grossProfit: Fixed, grossLoss: Fixed, totalPnl: Fixed) {
    && wins == |Positives(us)| && losses == |Negatives(us)| && breakeven == |us| - wins - losses
    && Holds(grossProfit, Sum(Positives(us)), k)
    && Holds(grossLoss, -Sum(Negatives(us)), k)
    && Holds(totalPnl, Sum(us), k)
  }

  lemma TallyStep(us: seq<int>, k: nat, net: Fixed, wins: int, losses: int, breakeven: int,
                  grossProfit: Fixed, grossLoss: Fixed, totalPnl: Fixed)
    requires net.s <= k && Tallied(us, k, wins, losses, breakeven, grossProfit, grossLoss, totalPnl)
    ensures var sign := Cmp(net, ZERO);
            Tallied(us + [Units(net, k)], k,
                    if sign > 0 then wins + 1 else wins,
                    if sign < 0 then losses + 1 else losses,
                    if sign == 0 then breakeven + 1 else breakeven,
                    if sign > 0 then Add(grossProfit, net) else grossProfit,
                    if sign < 0 then Add(grossLoss, Mul(net, Fixed(-1, 0))) else grossLoss,
                    Add(totalPnl, net))
  {
    var x := Units(net, k);
    HoldsCmp(net, x, ZERO, 0, k);
    SignedStep(us, x);
    HoldsAdd(totalPnl, Sum(us), net, x, k);
    HoldsAdd(grossProfit, Sum(Positives(us)), net, x, k);
    HoldsNegated(net, x, k);
    HoldsAdd(grossLoss, -Sum(Negatives(us)), Mul(net, Fixed(-1, 0)), -x, k);
  }

  /** The running best and worst are the extremes of the series seen so far. */
  ghost predicate Extremes(us: seq<int>, k: nat, best: Option<Fixed>, worst: Option<Fixed>) {
    if us == [] then best.None? && worst.None?
    else
      && best.Some? && best.value.s <= k && IsBest(us, Units(best.value, k))
      && worst.Some? && worst.value.s <= k && IsWorst(us, Units(worst.value, k))
  }

  lemma ExtremesStep(us: seq<int>, k: nat, net: Fixed, best: Option<Fixed>, worst: Option<Fixed>)
    requires net.s <= k && Extremes(us, k, best, worst)
    ensures Extremes(us + [Units(net, k)], k,
                     if best.None? || Cmp(net, best.value) > 0 then Some(net) else best,
                     if worst.None? || Cmp(net, worst.value) < 0 then Some(net) else worst)
  {
    var x := Units(net, k);
    if us == [] {
      BestStep(us, x, 0);
      WorstStep(us, x, 0);
    } else {
      BestStep(us, x, Units(best.value, k));
      WorstStep(us, x, Units(worst.value, k));
      CmpExact(net, best.value, k);
      CmpExact(net, worst.value, k);
    }
  }

  lemma ExtremesPrint(us: seq<int>, k: nat, best: Option<Fixed>, worst: Option<Fixed>, mode: RoundingMode)
    requires Extremes(us, k, best, worst)
    ensures BestPrinted(us, k, mode, ToString(Rescale(best.GetOr(ZERO), CURRENCY_SCALE, mode)))
    ensures WorstPrinted(us, k, mode, ToString(Rescale(worst.GetOr(ZERO), CURRENCY_SCALE, mode)))
  {
    if us != [] {
      HoldsPrint(best.value, Units(best.value, k), k, CURRENCY_SCALE, mode);
      HoldsPrint(worst.value, Units(worst.value, k), k, CURRENCY_SCALE, mode);
    }
  }

  lemma AverageByValue(sum: Fixed, x: int, k: nat, count: nat, mode: RoundingMode)
    requires Holds(sum, x, k)
    ensures AverageROf(sum, count, mode) == AverageROf(Fixed(x, k), count, mode)
  {
    if count == 0 {
      return;
    }
    var c := Fixed(count, 0);
    NonZeroProduct(count, Pow10(k));
    HoldsDiv(sum, x, c, Units(c, k), k, 8, mode);
    assert Holds(Fixed(x, k), x, k) by {
      assert Pow10(0) == 1;
    }
    HoldsDiv(Fixed(x, k), x, c, Units(c, k), k, 8, mode);
  }

  /** The sum and count of the R multiples seen so far. */
  predicate RSummed(rs: seq<Fixed>, rk: nat, rSum: Fixed, rCount: int) {
    ScaleWithin(rs, rk) && rCount == |rs| && Holds(rSum, Sum(InUnits(rs, rk)), rk)
  }

  lemma RSummedStep(all: seq<Fixed>, rs: seq<Fixed>, rk: nat, rSum: Fixed, rCount: int, multiple: Fixed)
    requires ScaleWithin(all, rk) && rs + [multiple] <= all && RSummed(rs, rk, rSum, rCount)
    ensures RSummed(rs + [multiple], rk, Add(rSum, multiple), rCount + 1)
  {
    UnitsOfStep(all, rs, multiple, rk);
    HoldsAdd(rSum, Sum(InUnits(rs, rk)), multiple, Units(multiple, rk), rk);
    SumStep(InUnits(rs, rk), Units(multiple, rk));
  }

  function ProfitFactorOf(grossProfit: Fixed, grossLoss: Fixed, mode: RoundingMode): Option<string> {
    if Cmp(grossLoss, ZERO) > 0 then
      PositiveUnscaled(grossLoss);
      Some(ToString(RatioAt4(grossProfit, grossLoss, mode)))
    else if Cmp(grossProfit, ZERO) > 0 then None
    else Some("0")
  }

  lemma PositiveUnscaled(f: Fixed)
    requires Cmp(f, ZERO) > 0
    ensures f.u > 0
  {
    CmpExact(f, ZERO, f.s);
    assert Pow10(0) == 1;
  }

  lemma ProfitFactorByValue(us: seq<int>, k: nat, grossProfit: Fixed, grossLoss: Fixed, mode: RoundingMode)
    requires Holds(grossProfit, Sum(Positives(us)), k) && Holds(grossLoss, -Sum(Negatives(us)), k)
    ensures ProfitFactorOf(grossProfit, grossLoss, mode) == ProfitFactor(Positives(us), Negatives(us), k, mode)
  {
    hide Positives, Negatives, Sum, Cmp, Div, ToString, Rescale;
    PositiveSum(us);
    NegativeSum(us);
    HoldsCmp(grossLoss, -Sum(Negatives(us)), ZERO, 0, k);
    HoldsCmp(grossProfit, Sum(Positives(us)), ZERO, 0, k);
    if Sum(Negatives(us)) != 0 {
      HoldsDiv(grossProfit, Sum(Positives(us)), grossLoss, -Sum(Negatives(us)), k, 8, mode);
    }
  }

  /** The variables of the summary loop after `trades[..i]`. */
  datatype Scan = Scan(
    wins: nat, losses: nat, breakeven: nat, grossProfit: Fixed, grossLoss: Fixed, totalPnl: Fixed,
    rSum: Fixed, rCount: nat, best: Option<Fixed>, worst: Option<Fixed>)

  ghost predicate Scanned(closed: seq<MetricTrade>, i: nat, s: Scan) {
    var k, rk := CommonScale(Nets(closed)), CommonScale(RMultiples(closed));
    && i <= |closed|
    && Parses(closed[..i])
    && ScaleWithin(Nets(closed[..i]), k)
    && Tallied(InUnits(Nets(closed[..i]), k), k, s.wins, s.losses, s.breakeven, s.grossProfit, s.grossLoss, s.totalPnl)
    && Extremes(InUnits(Nets(closed[..i]), k), k, s.best, s.worst)
    && RSummed(RMultiples(closed[..i]), rk, s.rSum, s.rCount)
  }

  lemma ScanStart(closed: seq<MetricTrade>)
    ensures Scanned(closed, 0, Scan(0, 0, 0, ZERO, ZERO, ZERO, ZERO, 0, None, None))
  {
    assert closed[..0] == [];
  }

  lemma ScanStep(closed: seq<MetricTrade>, i: nat, s: Scan, net: Fixed, multiple: Option<Fixed>)
    requires i < |closed| && Scanned(closed, i, s) && closed[i].netPnl.Some?
    requires FromString(closed[i].netPnl.value) == Success(net)
    requires match closed[i].rMultiple
             case None => multiple == None
             case Some(r) => multiple.Some? && FromString(r) == Success(multiple.value)
    ensures var sign := Cmp(net, ZERO);
            Scanned(closed, i + 1, Scan(
                      if sign > 0 then s.wins + 1 else s.wins,
                      if sign < 0 then s.losses + 1 else s.losses,
                      if sign == 0 then s.breakeven + 1 else s.breakeven,
                      if sign > 0 then Add(s.grossProfit, net) else s.grossProfit,
                      if sign < 0 then Add(s.grossLoss, Mul(net, Fixed(-1, 0))) else s.grossLoss,
                      Add(s.totalPnl, net),
                      if multiple.Some? then Add(s.rSum, multiple.value) else s.rSum,
                      if multiple.Some? then s.rCount + 1 else s.rCount,
                      if s.best.None? || Cmp(net, s.best.value) > 0 then Some(net) else s.best,
                      if s.worst.None? || Cmp(net, s.worst.value) < 0 then Some(net) else s.worst))
  {
    hide Cmp, Add, Mul, FromString, Tallied, Extremes, RSummed, Nets, RMultiples, Parses, ScaleWithin, InUnits, Units,
      CommonScale;
    var nets, rs := Nets(closed), RMultiples(closed);
    var k, rk := CommonScale(nets), CommonScale(rs);
    var us := InUnits(Nets(closed[..i]), k);
    SeriesPrefix(closed, i + 1);
    assert closed[..i] + [closed[i]] == closed[..i + 1];
    AppendTrade(closed[..i], closed[i]);
    UnitsOfStep(nets, Nets(closed[..i]), net, k);
    TallyStep(us, k, net, s.wins, s.losses, s.breakeven, s.grossProfit, s.grossLoss, s.totalPnl);
    ExtremesStep(us, k, net, s.best, s.worst);
    if multiple.Some? {
      RSummedStep(rs, RMultiples(closed[..i]), rk, s.rSum, s.rCount, multiple.value);
    } else {
      assert RMultiples(closed[..i]) + [] == RMultiples(closed[..i]);
    }
  }

  lemma ScanFails(closed: seq<MetricTrade>, i: nat)
    requires i < |closed| && closed[i].netPnl.Some?
    requires FromString(closed[i].netPnl.value).Failure?
          || (closed[i].rMultiple.Some? && FromString(closed[i].rMultiple.value).Failure?)
    ensures !Parses(closed)
  {
    assert !ParsesOne(closed[i]);
  }

  method ComputeSummary(trades: seq<MetricTrade>, mode: RoundingMode) returns (r: Result<Summary, DecimalError>)
    ensures r.Success? <==> Parses(trades)
    ensures r.Success? ==> r.value.tradeCount == |trades|
    ensures r.Success? ==>
              var nets := Nets(trades);
              IsSummary(r.value, InUnits(nets, CommonScale(nets)), CommonScale(nets), RMultiples(trades), mode)
  {
    hide *;
    var closed := Closed(trades);
    ClosedKeepsNets(trades);
    var wins, losses, breakeven := 0, 0, 0;
    var grossProfit, grossLoss, totalPnl, rSum := ZERO, ZERO, ZERO, ZERO;
    var rCount := 0;
    var best: Option<Fixed>, worst: Option<Fixed> := None, None;
    ScanStart(closed);
    for i := 0 to |closed|
      invariant wins >= 0 && losses >= 0 && breakeven >= 0 && rCount >= 0
      invariant Scanned(closed, i,
          Scan(wins, losses, breakeven, grossProfit, grossLoss, totalPnl, rSum, rCount, best, worst))
    {
      var t := closed[i];
      var parsed := FromString(t.netPnl.value);
      if parsed.Failure? {
        ScanFails(closed, i);
        return Failure(parsed.error);
      }
      var net := parsed.value;
      ghost var before := Scan(wins, losses, breakeven, grossProfit, grossLoss, totalPnl, rSum, rCount, best, worst);
      totalPnl := Add(totalPnl, net);
      var sign := Cmp(net, ZERO);
      if sign > 0 {
        wins := wins + 1;
        grossProfit := Add(grossProfit, net);
      } else if sign < 0 {
        losses := losses + 1;
        grossLoss := Add(grossLoss, Mul(net, Fixed(-1, 0)));
      } else {
        breakeven := breakeven + 1;
      }
      if best.None? || Cmp(net, best.value) > 0 {
        best := Some(net);
      }
      if worst.None? || Cmp(net, worst.value) < 0 {
        worst := Some(net);
      }
      ghost var multiple: Option<Fixed> := None;
      if t.rMultiple.Some? {
        var r := FromString(t.rMultiple.value);
        if r.Failure? {
          ScanFails(closed, i);
          return Failure(r.error);
        }
        rSum := Add(rSum, r.value);
        rCount := rCount + 1;
        multiple := Some(r.value);
      }
      ScanStep(closed, i, before, net, multiple);
    }
    var printed := Summary(
      |trades|, wins, losses, breakeven, ToString(WinRateOf(wins, losses, mode)),
      ToString(Rescale(totalPnl, CURRENCY_SCALE, mode)), ProfitFactorOf(grossProfit, grossLoss, mode),
      ToString(AverageROf(rSum, rCount, mode)), ToString(Rescale(best.GetOr(ZERO), CURRENCY_SCALE, mode)),
      ToString(Rescale(worst.GetOr(ZERO), CURRENCY_SCALE, mode)));
    ScanEnd(closed, printed, Scan(wins, losses, breakeven, grossProfit, grossLoss, totalPnl, rSum, rCount, best, worst),
      mode);
    r := Success(printed);
  }

  lemma ScanEnd(closed: seq<MetricTrade>, printed: Summary, s: Scan, mode: RoundingMode)
    requires Scanned(closed, |closed|, s)
    requires printed == Summary(
               printed.tradeCount, s.wins, s.losses, s.breakeven, ToString(WinRateOf(s.wins, s.losses, mode)),
               ToString(Rescale(s.totalPnl, CURRENCY_SCALE, mode)), ProfitFactorOf(s.grossProfit, s.grossLoss, mode),
               ToString(AverageROf(s.rSum, s.rCount, mode)),
               ToString(Rescale(s.best.GetOr(ZERO), CURRENCY_SCALE, mode)),
               ToString(Rescale(s.worst.GetOr(ZERO), CURRENCY_SCALE, mode)))
    ensures Parses(closed)
    ensures var k := CommonScale(Nets(closed));
            IsSummary(printed, InUnits(Nets(closed), k), k, RMultiples(closed), mode)
  {
    hide Tallied, Extremes, IsSummary, Rescale, ToString, WinRateOf, AverageROf, ProfitFactorOf;
    assert closed[..|closed|] == closed;
    var rs := RMultiples(closed);
    var k := CommonScale(Nets(closed));
    SummaryPrinted(printed, InUnits(Nets(closed), k), k, rs, s.breakeven, s.grossProfit, s.grossLoss, s.totalPnl,
      s.rSum, s.best, s.worst, mode);
  }

  /** Printing the loop's final variables gives the summary of the series. */
  lemma SummaryPrinted(s: Summary, us: seq<int>, k: nat, rs: seq<Fixed>, breakeven: int, grossProfit: Fixed,
                       grossLoss: Fixed, totalPnl: Fixed, rSum: Fixed, best: Option<Fixed>, worst: Option<Fixed>,
                       mode: RoundingMode)
    requires Tallied(us, k, s.wins, s.losses, breakeven, grossProfit, grossLoss, totalPnl)
    requires Extremes(us, k, best, worst) && RSummed(rs, CommonScale(rs), rSum, |rs|)
    requires s.breakeven == breakeven && s.winRate == ToString(WinRateOf(s.wins, s.losses, mode))
    requires s.totalPnl == ToString(Rescale(totalPnl, CURRENCY_SCALE, mode))
    requires s.profitFactor == ProfitFactorOf(grossProfit, grossLoss, mode)
    requires s.averageR == ToString(AverageROf(rSum, |rs|, mode))
    requires s.bestTrade == ToString(Rescale(best.GetOr(ZERO), CURRENCY_SCALE, mode))
    requires s.worstTrade == ToString(Rescale(worst.GetOr(ZERO), CURRENCY_SCALE, mode))
    ensures IsSummary(s, us, k, rs, mode)
  {
    hide ToString, Rescale, Holds, Sum, Positives, Negatives, InUnits;
    hide CommonScale, ProfitFactorOf, WinRateOf, AverageROf, BestPrinted, WorstPrinted, ProfitFactor;
    HoldsPrint(totalPnl, Sum(us), k, CURRENCY_SCALE, mode);
    ExtremesPrint(us, k, best, worst, mode);
    ProfitFactorByValue(us, k, grossProfit, grossLoss, mode);
    AverageByValue(rSum, Sum(InUnits(rs, CommonScale(rs))), CommonScale(rs), |rs|, mode);
  }

  // ---------------------------------------------------------------- aggregate

  /** The aggregate of a series: the drawdown and the curve's extremes are those of the whole series. */
  ghost predicate IsAggregate(a: Aggregate, us: seq<int>, k: nat, mode: RoundingMode) {
    && a.contributingTrades == |us|
    && a.grossProfit == PrintMoney(Sum(Positives(us)), k, mode)
    && a.grossLoss == PrintMoney(Sum(Negatives(us)), k, mode)
    && (exists drop :: IsMaxDrop(us, drop) && a.maxDrawdown == PrintMoney(drop, k, mode))
    && (exists peak :: IsPeak(us, peak) && a.equityPeak == PrintMoney(peak, k, mode))
    && (exists trough :: IsTrough(us, trough) && a.equityTrough == PrintMoney(trough, k, mode))
  }

  /** The variables of the aggregate loop. */
  datatype Curve = Curve(
    grossProfit: Fixed, lossMagnitude: Fixed, running: Fixed, peak: Fixed, trough: Fixed, maxDrawdown: Fixed)

  ghost predicate Traced(us: seq<int>, k: nat, c: Curve) {
    && Holds(c.grossProfit, Sum(Positives(us)), k)
    && Holds(c.lossMagnitude, -Sum(Negatives(us)), k)
    && Holds(c.running, Sum(us), k)
    && c.peak.s <= k && IsPeak(us, Units(c.peak, k))
    && c.trough.s <= k && IsTrough(us, Units(c.trough, k))
    && c.maxDrawdown.s <= k && IsMaxDrop(us, Units(c.maxDrawdown, k))
  }

  function NextCurve(c: Curve, net: Fixed): Curve {
    var sign := Cmp(net, ZERO);
    var running := Add(c.running, net);
    var peak := if Cmp(running, c.peak) > 0 then running else c.peak;
    var fromPeak := Sub(peak, running);
    Curve(
      if sign > 0 then Add(c.grossProfit, net) else c.grossProfit,
      if sign < 0 then Add(c.lossMagnitude, Mul(net, Fixed(-1, 0))) else c.lossMagnitude,
      running,
      peak,
      if Cmp(running, c.trough) < 0 then running else c.trough,
      if Cmp(fromPeak, c.maxDrawdown) > 0 then fromPeak else c.maxDrawdown)
  }

  lemma NextCurveFields(c: Curve, net: Fixed)
    ensures var d, sign := NextCurve(c, net), Cmp(net, ZERO);
            && d.grossProfit == (if sign > 0 then Add(c.grossProfit, net) else c.grossProfit)
            && d.lossMagnitude == (if sign < 0 then Add(c.lossMagnitude, Mul(net, Fixed(-1, 0))) else c.lossMagnitude)
            && d.running == Add(c.running, net)
            && d.peak == (if Cmp(d.running, c.peak) > 0 then d.running else c.peak)
            && d.trough == (if Cmp(d.running, c.trough) < 0 then d.running else c.trough)
            && d.maxDrawdown
              == (if Cmp(Sub(d.peak, d.running), c.maxDrawdown) > 0 then Sub(d.peak, d.running) else c.maxDrawdown)
  {
  }

  lemma TraceSums(us: seq<int>, k: nat, c: Curve, net: Fixed)
    requires net.s <= k && Traced(us, k, c)
    ensures var vs, d := us + [Units(net, k)], NextCurve(c, net);
            && Holds(d.grossProfit, Sum(Positives(vs)), k)
            && Holds(d.lossMagnitude, -Sum(Negatives(vs)), k)
            && Holds(d.running, Sum(vs), k)
  {
    hide Add, Mul, Cmp;
    var x := Units(net, k);
    assert Holds(net, x, k);
    HoldsCmp(net, x, ZERO, 0, k) by {
      HoldsZero(k);
    }
    SignedStep(us, x);
    HoldsAdd(c.running, Sum(us), net, x, k);
    HoldsAdd(c.grossProfit, Sum(Positives(us)), net, x, k);
    HoldsNegated(net, x, k);
    HoldsAdd(c.lossMagnitude, -Sum(Negatives(us)), Mul(net, Fixed(-1, 0)), -x, k);
  }

  lemma TraceExtremes(us: seq<int>, k: nat, c: Curve, net: Fixed)
    requires net.s <= k && Traced(us, k, c)
    ensures var vs, d := us + [Units(net, k)], NextCurve(c, net);
            && d.peak.s <= k && IsPeak(vs, Units(d.peak, k))
            && d.trough.s <= k && IsTrough(vs, Units(d.trough, k))
  {
    hide NextCurve, Add, Sub, Mul, Cmp, IsPeak, IsTrough, IsMaxDrop, Positives, Negatives, Equity, Units, Sum;
    TraceSums(us, k, c, net);
    NextCurveFields(c, net);
    var x, d := Units(net, k), NextCurve(c, net);
    SumStep(us, x);
    EquityAtEnd(us);
    CmpExact(d.running, c.peak, k);
    CmpExact(d.running, c.trough, k);
    PeakStep(us, x, Units(c.peak, k), Units(d.peak, k));
    TroughStep(us, x, Units(c.trough, k), Units(d.trough, k));
  }

  lemma TraceDrop(us: seq<int>, k: nat, c: Curve, net: Fixed)
    requires net.s <= k && Traced(us, k, c)
    ensures var vs, d := us + [Units(net, k)], NextCurve(c, net);
            d.maxDrawdown.s <= k && IsMaxDrop(vs, Units(d.maxDrawdown, k))
  {
    hide NextCurve, Add, Sub, Mul, Cmp, IsPeak, IsTrough, IsMaxDrop, Positives, Negatives, Equity, Units, Sum;
    TraceSums(us, k, c, net);
    TraceExtremes(us, k, c, net);
    NextCurveFields(c, net);
    var x, d := Units(net, k), NextCurve(c, net);
    EquityAtEnd(us + [x]);
    SubExact(d.peak, d.running, k);
    CmpExact(Sub(d.peak, d.running), c.maxDrawdown, k);
    DropStep(us, x, Units(c.maxDrawdown, k), Units(d.peak, k), Units(d.maxDrawdown, k));
  }

  lemma TraceStep(us: seq<int>, k: nat, c: Curve, net: Fixed)
    requires net.s <= k && Traced(us, k, c)
    ensures Traced(us + [Units(net, k)], k, NextCurve(c, net))
  {
    hide *;
    TraceSums(us, k, c, net);
    TraceExtremes(us, k, c, net);
    TraceDrop(us, k, c, net);
    TracedJoin(us + [Units(net, k)], k, NextCurve(c, net));
  }

  lemma TracedJoin(us: seq<int>, k: nat, c: Curve)
    requires Holds(c.grossProfit, Sum(Positives(us)), k) && Holds(c.lossMagnitude, -Sum(Negatives(us)), k)
    requires Holds(c.running, Sum(us), k)
    requires c.peak.s <= k && IsPeak(us, Units(c.peak, k)) && c.trough.s <= k && IsTrough(us, Units(c.trough, k))
    requires c.maxDrawdown.s <= k && IsMaxDrop(us, Units(c.maxDrawdown, k))
    ensures Traced(us, k, c)
  {
    hide Holds, Units, IsPeak, IsTrough, IsMaxDrop, Positives, Negatives, Sum;
  }

  lemma EquityAtEnd(us: seq<int>)
    ensures Equity(us, |us|) == Sum(us)
  {
    assert us[..|us|] == us;
  }

  ghost predicate TracedTrades(trades: seq<MetricTrade>, i: nat, contributing: int, c: Curve) {
    var k := CommonScale(Nets(trades));
    && i <= |trades|
    && ScaleWithin(Nets(trades[..i]), k)
    && contributing == |Nets(trades[..i])|
    && Traced(InUnits(Nets(trades[..i]), k), k, c)
  }

  lemma TracedStart(trades: seq<MetricTrade>)
    ensures TracedTrades(trades, 0, 0, Curve(ZERO, ZERO, ZERO, ZERO, ZERO, ZERO))
  {
    assert trades[..0] == [];
    SeriesStart();
  }

  lemma TracedTradesStep(trades: seq<MetricTrade>, i: nat, contributing: int, c: Curve)
    requires i < |trades| && TracedTrades(trades, i, contributing, c)
    ensures if trades[i].netPnl.None? then TracedTrades(trades, i + 1, contributing, c)
            else TracedTrades(trades, i + 1, contributing + 1, NextCurve(c, Value(trades[i].netPnl.value)))
  {
    hide Traced, NextCurve, Value, Nets, InUnits, Units, CommonScale, ScaleWithin;
    var k := CommonScale(Nets(trades));
    SeriesPrefix(trades, i + 1);
    assert trades[..i] + [trades[i]] == trades[..i + 1];
    AppendTrade(trades[..i], trades[i]);
    if trades[i].netPnl.Some? {
      var net := Value(trades[i].netPnl.value);
      UnitsOfStep(Nets(trades), Nets(trades[..i]), net, k);
      TraceStep(InUnits(Nets(trades[..i]), k), k, c, net);
    } else {
      assert Nets(trades[..i]) + [] == Nets(trades[..i]);
    }
  }

  lemma CurvePrints(us: seq<int>, k: nat, c: Curve, a: Aggregate, mode: RoundingMode)
    requires Traced(us, k, c) && a.contributingTrades == |us|
    requires a.grossProfit == ToString(Rescale(c.grossProfit, CURRENCY_SCALE, mode))
    requires a.grossLoss == ToString(Rescale(Mul(c.lossMagnitude, Fixed(-1, 0)), CURRENCY_SCALE, mode))
    requires a.maxDrawdown == ToString(Rescale(c.maxDrawdown, CURRENCY_SCALE, mode))
    requires a.equityPeak == ToString(Rescale(c.peak, CURRENCY_SCALE, mode))
    requires a.equityTrough == ToString(Rescale(c.trough, CURRENCY_SCALE, mode))
    ensures IsAggregate(a, us, k, mode)
  {
    hide ToString, Rescale, Mul, IsPeak, IsTrough, IsMaxDrop, Units;
    HoldsPrint(c.grossProfit, Sum(Positives(us)), k, CURRENCY_SCALE, mode);
    HoldsNegated(c.lossMagnitude, -Sum(Negatives(us)), k);
    HoldsPrint(Mul(c.lossMagnitude, Fixed(-1, 0)), Sum(Negatives(us)), k, CURRENCY_SCALE, mode);
    HoldsPrint(c.maxDrawdown, Units(c.maxDrawdown, k), k, CURRENCY_SCALE, mode);
    HoldsPrint(c.peak, Units(c.peak, k), k, CURRENCY_SCALE, mode);
    HoldsPrint(c.trough, Units(c.trough, k), k, CURRENCY_SCALE, mode);
  }

  /** The printed total, read back and averaged over the contributing trades. */
  function Expectancy(totalPnl: string, contributing: nat, mode: RoundingMode): Fixed {
    if contributing > 0 then Rescale(Div(Value(totalPnl), Fixed(contributing, 0), 8, mode).value, CURRENCY_SCALE, mode)
    else ZERO
  }

  method ComputeAggregate(trades: seq<MetricTrade>, mode: RoundingMode) returns (r: Result<Aggregate, DecimalError>)
    ensures r.Success? <==> Parses(trades)
    ensures r.Success? ==>
              var nets := Nets(trades);
              var k := CommonScale(nets);
              && IsAggregate(r.value, InUnits(nets, k), k, mode)
              && IsSummary(r.value.summary, InUnits(nets, k), k, RMultiples(trades), mode)
              && r.value.expectancy == ToString(Expectancy(r.value.summary.totalPnl, |nets|, mode))
  {
    hide *;
    var summary := ComputeSummary(trades, mode);
    if summary.Failure? {
      return Failure(summary.error);
    }
    var grossProfit, lossMagnitude, running := ZERO, ZERO, ZERO;
    var peak, trough, maxDrawdown := ZERO, ZERO, ZERO;
    var contributing := 0;
    TracedStart(trades);
    for i := 0 to |trades|
      invariant contributing >= 0
      invariant TracedTrades(trades, i, contributing,
          Curve(grossProfit, lossMagnitude, running, peak, trough, maxDrawdown))
    {
      var t := trades[i];
      TracedTradesStep(trades, i, contributing, Curve(grossProfit, lossMagnitude, running, peak, trough, maxDrawdown));
      if t.netPnl.Some? {
        NextCurveFields(Curve(grossProfit, lossMagnitude, running, peak, trough, maxDrawdown), Value(t.netPnl.value));
        contributing := contributing + 1;
        var net := Value(t.netPnl.value);
        var sign := Cmp(net, ZERO);
        if sign > 0 {
          grossProfit := Add(grossProfit, net);
        } else if sign < 0 {
          lossMagnitude := Add(lossMagnitude, Mul(net, Fixed(-1, 0)));
        }
        running := Add(running, net);
        if Cmp(running, peak) > 0 {
          peak := running;
        }
        if Cmp(running, trough) < 0 {
          trough := running;
        }
        var fromPeak := Sub(peak, running);
        if Cmp(fromPeak, maxDrawdown) > 0 {
          maxDrawdown := fromPeak;
        }
      }
    }
    var printed := Aggregate(
      summary.value, contributing,
      ToString(Rescale(grossProfit, CURRENCY_SCALE, mode)),
      ToString(Rescale(Mul(lossMagnitude, Fixed(-1, 0)), CURRENCY_SCALE, mode)),
      ToString(Expectancy(summary.value.totalPnl, contributing, mode)),
      ToString(Rescale(maxDrawdown, CURRENCY_SCALE, mode)),
      ToString(Rescale(peak, CURRENCY_SCALE, mode)),
      ToString(Rescale(trough, CURRENCY_SCALE, mode)));
    TracedEnd(trades, printed, Curve(grossProfit, lossMagnitude, running, peak, trough, maxDrawdown), mode);
    r := Success(printed);
  }

  lemma TracedEnd(trades: seq<MetricTrade>, a: Aggregate, c: Curve, mode: RoundingMode)
    requires TracedTrades(trades, |trades|, a.contributingTrades, c)
    requires a.grossProfit == ToString(Rescale(c.grossProfit, CURRENCY_SCALE, mode))
    requires a.grossLoss == ToString(Rescale(Mul(c.lossMagnitude, Fixed(-1, 0)), CURRENCY_SCALE, mode))
    requires a.maxDrawdown == ToString(Rescale(c.maxDrawdown, CURRENCY_SCALE, mode))
    requires a.equityPeak == ToString(Rescale(c.peak, CURRENCY_SCALE, mode))
    requires a.equityTrough == ToString(Rescale(c.trough, CURRENCY_SCALE, mode))
    ensures var k := CommonScale(Nets(trades));
            IsAggregate(a, InUnits(Nets(trades), k), k, mode) && a.contributingTrades == |Nets(trades)|
  {
    hide ToString, Rescale, Mul, Traced, IsAggregate;
    assert trades[..|trades|] == trades;
    var k := CommonScale(Nets(trades));
    CurvePrints(InUnits(Nets(trades), k), k, c, a, mode);
  }

  function NetsOfDays(points: seq<DailyPnl>): (nets: seq<Fixed>)
    ensures |nets| == |points|
    ensures forall i :: 0 <= i < |points| ==> nets[i] == Value(points[i].netPnl)
  {
    seq(|points|, i requires 0 <= i < |points| => Value(points[i].netPnl))
  }

  /** The point that day `i` contributes: the exact cumulative result, rounded once. */
  function PointAt(points: seq<DailyPnl>, i: nat, mode: RoundingMode): EquityPoint
    requires i < |points|
  {
    var k := CommonScale(NetsOfDays(points));
    EquityPoint(points[i].day, PrintMoney(Equity(InUnits(NetsOfDays(points), k), i + 1), k, mode))
  }

  ghost predicate CurveSoFar(points: seq<DailyPnl>, i: nat, running: Fixed) {
    var k := CommonScale(NetsOfDays(points));
    i <= |points| && Holds(running, Equity(InUnits(NetsOfDays(points), k), i), k)
  }

  lemma CurveStart(points: seq<DailyPnl>)
    ensures CurveSoFar(points, 0, ZERO)
  {
  }

  lemma CurveSoFarStep(points: seq<DailyPnl>, i: nat, running: Fixed, net: Fixed, mode: RoundingMode)
    requires i < |points| && CurveSoFar(points, i, running) && FromString(points[i].netPnl) == Success(net)
    ensures CurveSoFar(points, i + 1, Add(running, net))
    ensures PointAt(points, i, mode)
         == EquityPoint(points[i].day, ToString(Rescale(Add(running, net), CURRENCY_SCALE, mode)))
  {
    hide Add, FromString, Rescale, ToString, CommonScale;
    var nets := NetsOfDays(points);
    var k := CommonScale(nets);
    var us := InUnits(nets, k);
    assert nets[i] == net;
    HoldsAdd(running, Equity(us, i), net, us[i], k);
    assert us[..i + 1][..i] == us[..i];
    HoldsPrint(Add(running, net), Equity(us, i + 1), k, CURRENCY_SCALE, mode);
  }

  method ComputeEquityCurve(points: seq<DailyPnl>, mode: RoundingMode)
    returns (r: Result<seq<EquityPoint>, DecimalError>)
    ensures r.Success? <==> forall i :: 0 <= i < |points| ==> FromString(points[i].netPnl).Success?
    ensures r.Success? ==> |r.value| == |points|
    ensures r.Success? ==> forall i :: 0 <= i < |points| ==> r.value[i] == PointAt(points, i, mode)
  {
    hide *;
    var running := ZERO;
    var out: seq<EquityPoint> := [];
    CurveStart(points);
    for i := 0 to |points|
      invariant |out| == i && CurveSoFar(points, i, running)
      invariant forall j :: 0 <= j < i ==> FromString(points[j].netPnl).Success?
      invariant forall j :: 0 <= j < i ==> out[j] == PointAt(points, j, mode)
    {
      var parsed := FromString(points[i].netPnl);
      if parsed.Failure? {
        return Failure(parsed.error);
      }
      CurveSoFarStep(points, i, running, parsed.value, mode);
      running := Add(running, parsed.value);
      out := out + [EquityPoint(points[i].day, ToString(Rescale(running, CURRENCY_SCALE, mode)))];
    }
    r := Success(out);
  }
}
