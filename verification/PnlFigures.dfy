/**
 The P&L answer from the input's decimals: every figure is the exact product of price difference,
 volume and contract size, rounded to cents, and each answer has its own condition.
 */
module PnlFigures {
  import opened Wrappers
  import opened Digits
  import opened Decimal
  import opened Pnl

  /** The six decimals are well formed. */
  predicate WellFormed(input: PnlInput) {
    && FromString(input.entryPrice).Success? && FromString(input.exitPrice).Success?
    && FromString(input.volume).Success? && FromString(input.contractSize).Success?
    && FromString(input.commission).Success? && FromString(input.swap).Success?
  }

  /** `to` minus `from` for a buyer, `from` minus `to` for a seller, in units of the finer of both scales. */
  function Gain(direction: Direction, from: Fixed, to: Fixed): int {
    var p := MaxScale(from.s, to.s);
    var rise := to.u * Pow10(p - to.s) - from.u * Pow10(p - from.s);
    if direction == Buy then rise else -rise
  }

  /** `cents` is `gain` times volume times contract size, `gain` in units of 10^-p, rounded to cents. */
  predicate InCents(gain: int, p: nat, volume: Fixed, size: Fixed, mode: RoundingMode, cents: Fixed) {
    && cents.s == 2
    && RoundsTo(gain * volume.u * size.u * 100, Pow10(p + volume.s + size.s), mode, cents.u)
  }

  /** `gross` is what the move from entry to exit is worth. */
  predicate IsGross(input: PnlInput, mode: RoundingMode, gross: Fixed)
    requires WellFormed(input)
  {
    var entry, exit := FromString(input.entryPrice).value, FromString(input.exitPrice).value;
    InCents(Gain(input.direction, entry, exit), MaxScale(entry.s, exit.s), FromString(input.volume).value,
            FromString(input.contractSize).value, mode, gross)
  }

  /** `net` is `gross` less commission and swap, each of any scale, rounded to cents. */
  predicate IsNet(input: PnlInput, mode: RoundingMode, gross: Fixed, net: Fixed)
    requires WellFormed(input)
  {
    var commission, swap := FromString(input.commission).value, FromString(input.swap).value;
    var k := MaxScale(MaxScale(2, commission.s), swap.s);
    var exact := gross.u * Pow10(k - 2) - commission.u * Pow10(k - commission.s) - swap.u * Pow10(k - swap.s);
    net.s == 2 && RoundsTo(exact * 100, Pow10(k), mode, net.u)
  }

  /** `risk` is what the move from the stop to entry is worth. */
  predicate IsRisk(input: PnlInput, stop: Fixed, mode: RoundingMode, risk: Fixed)
    requires WellFormed(input)
  {
    var entry := FromString(input.entryPrice).value;
    InCents(Gain(input.direction, stop, entry), MaxScale(stop.s, entry.s), FromString(input.volume).value,
            FromString(input.contractSize).value, mode, risk)
  }

  /** `r` is net over risk, of whatever signs, rounded at eight decimals. */
  predicate IsMultiple(net: Fixed, risk: Fixed, mode: RoundingMode, r: Fixed)
    requires risk.u != 0
  {
    r.s == 8 && RoundsTo(if risk.u < 0 then -(net.u * 100000000) else net.u * 100000000, Abs(risk.u), mode, r.u)
  }

  // ---------------------------------------------------------------- the figures

  lemma ZeroPower()
    ensures Pow10(0) == 1 && Pow10(2) == 100 && Pow10(8) == 100000000
  {
  }

  /** A move between two prices, as money. */
  lemma MoveInCents(direction: Direction, from: Fixed, to: Fixed, volume: Fixed, size: Fixed, mode: RoundingMode)
    ensures var delta := if direction == Buy then Sub(to, from) else Sub(from, to);
            InCents(Gain(direction, from, to), MaxScale(from.s, to.s), volume, size, mode,
                    Money(Mul(Mul(delta, volume), size), mode))
  {
    hide Pow10, RoundsTo, Rescale;
    var delta := if direction == Buy then Sub(to, from) else Sub(from, to);
    var p := MaxScale(from.s, to.s);
    assert delta.s == p && delta.u == Gain(direction, from, to);
    var f := Mul(Mul(delta, volume), size);
    assert f.u == delta.u * volume.u * size.u && f.s == p + volume.s + size.s;
    ZeroPower();
    RescaleRounds(f, 2, mode);
  }

  lemma GrossRounds(input: PnlInput, mode: RoundingMode)
    requires WellFormed(input)
    ensures ParseTrade(input).Success? && IsGross(input, mode, Gross(ParseTrade(input).value, mode))
  {
    hide FromString, InCents, Gain, Money, Mul, Sub;
    var t := ParseTrade(input).value;
    MoveInCents(input.direction, t.entry, t.exit, t.volume, t.contractSize, mode);
  }

  lemma RiskRounds(input: PnlInput, stop: Fixed, mode: RoundingMode)
    requires WellFormed(input)
    ensures ParseTrade(input).Success? && IsRisk(input, stop, mode, Risk(ParseTrade(input).value, stop, mode))
  {
    hide FromString, InCents, Gain, Money, Mul, Sub;
    var t := ParseTrade(input).value;
    MoveInCents(input.direction, stop, t.entry, t.volume, t.contractSize, mode);
  }

  lemma NetRounds(input: PnlInput, mode: RoundingMode)
    requires WellFormed(input)
    ensures ParseTrade(input).Success?
    ensures var t := ParseTrade(input).value; IsNet(input, mode, Gross(t, mode), Net(t, mode))
  {
    hide FromString, Gross, RoundsTo, Rescale, Pow10;
    var t := ParseTrade(input).value;
    var gross := Gross(t, mode);
    ZeroPower();
    LessBoth(gross, t.commission, t.swap);
    RescaleRounds(Sub(Sub(gross, t.commission), t.swap), 2, mode);
  }

  lemma LessBoth(gross: Fixed, commission: Fixed, swap: Fixed)
    ensures var k := MaxScale(MaxScale(gross.s, commission.s), swap.s);
            Sub(Sub(gross, commission), swap)
            == Fixed(gross.u * Pow10(k - gross.s) - commission.u * Pow10(k - commission.s)
                     - swap.u * Pow10(k - swap.s), k)
  {
    var k := MaxScale(MaxScale(gross.s, commission.s), swap.s);
    SubExact(gross, commission, k);
    hide Pow10;
  }

  lemma MultipleRounds(net: Fixed, risk: Fixed, mode: RoundingMode)
    requires net.s == 2 && risk.s == 2 && risk.u != 0
    ensures Div(net, risk, 8, mode).Success? && IsMultiple(net, risk, mode, Div(net, risk, 8, mode).value)
  {
    ZeroPower();
    hide Pow10, RoundQuotient, RoundsTo;
    var n := net.u * Pow10(8);
    Pow10Add(8, 2);
    Associate(net.u, Pow10(8), Pow10(2));
    CancelSigned(n, risk.u, Pow10(2), mode);
    var q := RoundQuotient(n, risk.u, mode);
    if risk.u < 0 {
      SignSymmetric(-n, -risk.u, mode);
      QuotientExact(-n, -risk.u, mode, q);
    } else {
      QuotientExact(n, risk.u, mode, q);
    }
  }

  /** Which side of entry the stop is on, as a sign. */
  lemma GainSign(t: Trade, stop: Fixed)
    ensures Cmp(RiskDelta(t, stop), Fixed(0, 0)) <= 0 <==> Gain(t.direction, stop, t.entry) <= 0
  {
    var delta := RiskDelta(t, stop);
    assert delta.u == Gain(t.direction, stop, t.entry);
    CmpExact(delta, Fixed(0, 0), delta.s);
    ZeroPower();
    hide Pow10, Cmp, Sub;
  }

  // ---------------------------------------------------------------- the answer

  /** What the answer is, case by case, when the six decimals are well formed. */
  predicate IsAnswer(answer: Result<PnlResult, DecimalError>, input: PnlInput, mode: RoundingMode, gross: Fixed,
                     net: Fixed, risk: Fixed, r: Fixed)
    requires WellFormed(input)
  {
    var stop := input.stopLoss.GetOr("");
    if Abs(net.u) >= Pow10(18) then answer == Success(OutOfRange(NetPnl))
    else if stop != "" && FromString(stop).Failure? then answer.Failure?
    else if stop == "" || FromString(stop).value.u == 0 then
      answer == Success(UndefinedRisk(ToString(gross), ToString(net), NoStopLoss))
    else if Gain(input.direction, FromString(stop).value, FromString(input.entryPrice).value) <= 0 then
      answer == Success(UndefinedRisk(ToString(gross), ToString(net), StopLossWrongSide))
    else
      && IsRisk(input, FromString(stop).value, mode, risk)
      && if risk.u == 0 then answer == Success(UndefinedRisk(ToString(gross), ToString(net), RiskIsZero))
         else
           && IsMultiple(net, risk, mode, r)
           && if Abs(r.u) >= Pow10(18) then answer == Success(OutOfRange(RMultiple))
              else answer == Success(Ok(ToString(gross), ToString(net), ToString(risk), ToString(r)))
  }

  lemma ParseExactly(input: PnlInput)
    ensures ParseTrade(input).Success? <==> WellFormed(input)
    ensures ParseTrade(input).Success? ==>
              var t := ParseTrade(input).value;
              && t.direction == input.direction
              && t.entry == FromString(input.entryPrice).value && t.exit == FromString(input.exitPrice).value
              && t.volume == FromString(input.volume).value && t.contractSize == FromString(input.contractSize).value
              && t.commission == FromString(input.commission).value && t.swap == FromString(input.swap).value
  {
    hide FromString;
  }

  /**
   The figures exist, rounding makes them unique, and with them the answer is the one its case
   prescribes; with a malformed decimal there is none.
   */
  lemma AnswerExactly(input: PnlInput, mode: RoundingMode) returns (gross: Fixed, net: Fixed, risk: Fixed, r: Fixed)
    ensures !WellFormed(input) ==> ComputePnl(input, mode).Failure?
    ensures WellFormed(input) ==>
              && IsGross(input, mode, gross) && IsNet(input, mode, gross, net)
              && IsAnswer(ComputePnl(input, mode), input, mode, gross, net, risk, r)
  {
    hide FromString, IsGross, IsNet, IsRisk, RoundsTo, Pow10, ToString, Gain, Gross, Net, Risk, FitsRange, Cmp,
      RiskDelta, Div, WellFormed;
    gross, net, risk, r := Fixed(0, 2), Fixed(0, 2), Fixed(0, 2), Fixed(0, 8);
    ParseExactly(input);
    if WellFormed(input) {
      var t := ParseTrade(input).value;
      gross, net := Gross(t, mode), Net(t, mode);
      GrossRounds(input, mode);
      NetRounds(input, mode);
      GuardIsMagnitude(net, 16, 8);
      var stop := input.stopLoss.GetOr("");
      if stop != "" && FromString(stop).Success? {
        var sl := FromString(stop).value;
        GainSign(t, sl);
        risk := Risk(t, sl, mode);
        RiskRounds(input, sl, mode);
        if risk.u != 0 {
          MultipleRounds(net, risk, mode);
          r := Div(net, risk, 8, mode).value;
          GuardIsMagnitude(r, 10, 8);
        }
      }
    }
  }
}
