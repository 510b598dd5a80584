/** The P&L engine: gross, net, directional risk, R multiple and the range guard. */
module Pnl {
  import opened Wrappers
  import opened Digits
  import opened Decimal
  import Text

  const CURRENCY_SCALE: nat := 2
  const R_SCALE: nat := 8
  const NET_INTEGER_DIGITS: nat := 16
  const R_INTEGER_DIGITS: nat := 10
  const FRACTION_DIGITS: nat := 8

  datatype Direction = Buy | Sell

  datatype PnlInput = PnlInput(
    direction: Direction, entryPrice: string, exitPrice: string, volume: string,
    contractSize: string, commission: string, swap: string, stopLoss: Option<string>)

  datatype RangeField = NetPnl | RMultiple

  datatype RiskReason = NoStopLoss | StopLossWrongSide | RiskIsZero

  datatype PnlResult =
    | Ok(grossPnl: string, netPnl: string, risk: string, rMultiple: string)
    | UndefinedRisk(grossPnl: string, netPnl: string, reason: RiskReason)
    | OutOfRange(field: RangeField)

  /** The six decimals every trade must carry. */
  datatype Trade = Trade(
    direction: Direction, entry: Fixed, exit: Fixed, volume: Fixed,
    contractSize: Fixed, commission: Fixed, swap: Fixed)

  /** `/^-?\d{1,integerDigits}(?:\.\d{1,fractionDigits})?$/` */
  predicate FitsRange(value: string, integerDigits: nat, fractionDigits: nat) {
    var body := Unsigned(value);
    var dot := Text.IndexOf(body, '.');
    && IsDecimal(value)
    && dot <= integerDigits
    && (dot < |body| ==> |body| - dot - 1 <= fractionDigits)
  }

  function Money(f: Fixed, mode: RoundingMode): (r: Fixed)
    ensures r.s == CURRENCY_SCALE
  {
    Rescale(f, CURRENCY_SCALE, mode)
  }

  function ParseTrade(input: PnlInput): Result<Trade, DecimalError> {
    var entry :- FromString(input.entryPrice);
    var exit :- FromString(input.exitPrice);
    var volume :- FromString(input.volume);
    var contractSize :- FromString(input.contractSize);
    var commission :- FromString(input.commission);
    var swap :- FromString(input.swap);
    Success(Trade(input.direction, entry, exit, volume, contractSize, commission, swap))
  }

  function Gross(t: Trade, mode: RoundingMode): (r: Fixed)
    ensures r.s == CURRENCY_SCALE
  {
    var delta := if t.direction == Buy then Sub(t.exit, t.entry) else Sub(t.entry, t.exit);
    Money(Mul(Mul(delta, t.volume), t.contractSize), mode)
  }

  function Net(t: Trade, mode: RoundingMode): (r: Fixed)
    ensures r.s == CURRENCY_SCALE
  {
    Money(Sub(Sub(Gross(t, mode), t.commission), t.swap), mode)
  }

  /** The directional distance to the stop: positive only on the losing side of entry. */
  function RiskDelta(t: Trade, stopLoss: Fixed): Fixed {
    if t.direction == Buy then Sub(t.entry, stopLoss) else Sub(stopLoss, t.entry)
  }

  function Risk(t: Trade, stopLoss: Fixed, mode: RoundingMode): (r: Fixed)
    ensures r.s == CURRENCY_SCALE
  {
    Money(Mul(Mul(RiskDelta(t, stopLoss), t.volume), t.contractSize), mode)
  }

  /** The stop loss that counts: present, not empty and not zero. */
  function StopLoss(input: PnlInput): Result<Option<Fixed>, DecimalError> {
    if input.stopLoss.None? || input.stopLoss.value == "" then
      Success(None)
    else
      var sl :- FromString(input.stopLoss.value);
      Success(if sl.u == 0 then None else Some(sl))
  }

  /** The answer for a parsed trade; a malformed stop loss only fails once net is in range. */
  function Answer(t: Trade, stopLoss: Result<Option<Fixed>, DecimalError>, mode: RoundingMode): Result<PnlResult,
                  DecimalError> {
    var gross, net := Gross(t, mode), Net(t, mode);
    if !FitsRange(ToString(net), NET_INTEGER_DIGITS, FRACTION_DIGITS) then
      Success(OutOfRange(NetPnl))
    else
      var sl :- stopLoss;
      if sl.None? then
        Success(UndefinedRisk(ToString(gross), ToString(net), NoStopLoss))
      else if Cmp(RiskDelta(t, sl.value), Fixed(0, 0)) <= 0 then
        Success(UndefinedRisk(ToString(gross), ToString(net), StopLossWrongSide))
      else
        var risk := Risk(t, sl.value, mode);
        if risk.u == 0 then
          Success(UndefinedRisk(ToString(gross), ToString(net), RiskIsZero))
        else
          var r :- Div(net, risk, R_SCALE, mode);
          if !FitsRange(ToString(r), R_INTEGER_DIGITS, FRACTION_DIGITS) then
            Success(OutOfRange(RMultiple))
          else
            Success(Ok(ToString(gross), ToString(net), ToString(risk), ToString(r)))
  }

  function ComputePnl(input: PnlInput, mode: RoundingMode): Result<PnlResult, DecimalError> {
    var t :- ParseTrade(input);
    Answer(t, StopLoss(input), mode)
  }

  // ---------------------------------------------------------------- the range guard

  /** The digit pattern accepts a printed value exactly when its magnitude is below 10^integerDigits. */
  lemma GuardIsMagnitude(f: Fixed, integerDigits: nat, fractionDigits: nat)
    requires integerDigits > 0 && f.s <= fractionDigits
    ensures FitsRange(ToString(f), integerDigits, fractionDigits)
       <==> Abs(f.u) < Pow10(integerDigits + f.s)
  {
    hide FitsRange, FromString, IsDecimal, Pow10, PrintNat, Abs;
    var whole, frac := PrintedParts(f);
    RoundTrip(f);
    DecimalText(ToString(f));
    WrittenFits(ToString(f), whole, frac, integerDigits, fractionDigits);
    PrintLength(Abs(f.u), integerDigits + f.s);
  }

  /** What a value prints: its digits around the point, at least one of them before it. */
  lemma PrintedParts(f: Fixed) returns (whole: string, frac: string)
    ensures |whole| > 0 && AllDigits(whole) && AllDigits(frac) && |frac| == f.s
    ensures Unsigned(ToString(f)) == Written(whole, frac)
    ensures |whole| + f.s == if |PrintNat(Abs(f.u))| < f.s + 1 then f.s + 1 else |PrintNat(Abs(f.u))|
  {
    hide PadStart, PrintNat, Abs, IsDigit;
    var d := AbsDigits(f);
    var p := |d| - f.s;
    whole, frac := d[..p], d[p..];
    assert IsDigit(whole[0]);
    DigitIsNoSign(whole[0]);
    assert Magnitude(f) == Written(whole, frac);
    assert Magnitude(f)[0] == whole[0];
    assert f.u < 0 ==> ToString(f)[1..] == Magnitude(f);
  }

  lemma DigitIsNoSign(c: char)
    requires IsDigit(c)
    ensures c != '-'
  {
  }

  lemma DecimalText(value: string)
    requires FromString(value).Success?
    ensures IsDecimal(value)
  {
    hide IsDecimal;
  }

  lemma WrittenFits(value: string, whole: string, frac: string, integerDigits: nat, fractionDigits: nat)
    requires |whole| > 0 && AllDigits(whole) && AllDigits(frac) && |frac| <= fractionDigits
    requires IsDecimal(value) && Unsigned(value) == Written(whole, frac)
    ensures FitsRange(value, integerDigits, fractionDigits) <==> |whole| <= integerDigits
  {
    hide IsDecimal, Unsigned, AllDigits;
    SplitWritten(whole, frac);
  }

  /** Risk is defined: a usable stop, on the losing side of entry, worth at least a cent. */
  predicate RiskDefined(t: Trade, stopLoss: Result<Option<Fixed>, DecimalError>, mode: RoundingMode) {
    && stopLoss.Success? && stopLoss.value.Some?
    && Cmp(RiskDelta(t, stopLoss.value.value), Fixed(0, 0)) > 0
    && Risk(t, stopLoss.value.value, mode).u != 0
  }

  /** The R multiple of a trade whose risk is defined. */
  function RMultipleOf(t: Trade, stopLoss: Result<Option<Fixed>, DecimalError>, mode: RoundingMode): (r: Fixed)
    requires RiskDefined(t, stopLoss, mode)
    ensures r.s == R_SCALE
  {
    Div(Net(t, mode), Risk(t, stopLoss.value.value, mode), R_SCALE, mode).value
  }

  lemma AnswerOutOfRange(t: Trade, stopLoss: Result<Option<Fixed>, DecimalError>, mode: RoundingMode)
    requires Answer(t, stopLoss, mode).Success?
    ensures var result := Answer(t, stopLoss, mode).value;
            var wideNet := Abs(Net(t, mode).u) >= Pow10(NET_INTEGER_DIGITS + CURRENCY_SCALE);
            && (result == OutOfRange(NetPnl) <==> wideNet)
            && (result == OutOfRange(RMultiple)
                <==> && !wideNet
                     && RiskDefined(t, stopLoss, mode)
                     && Abs(RMultipleOf(t, stopLoss, mode).u) >= Pow10(R_INTEGER_DIGITS + R_SCALE))
  {
    hide ToString, FitsRange, Gross, Net, Risk, RiskDelta, Cmp, Pow10;
    GuardIsMagnitude(Net(t, mode), NET_INTEGER_DIGITS, FRACTION_DIGITS);
    if RiskDefined(t, stopLoss, mode) {
      GuardIsMagnitude(RMultipleOf(t, stopLoss, mode), R_INTEGER_DIGITS, FRACTION_DIGITS);
    }
  }

  /**
   `out-of-range` is answered exactly when |net| reaches 10^16, or risk is defined and |R|
   reaches 10^10; the net check shadows the other one.
   */
  lemma OutOfRangeExactly(input: PnlInput, mode: RoundingMode)
    requires ComputePnl(input, mode).Success?
    ensures ParseTrade(input).Success?
    ensures var t, stopLoss := ParseTrade(input).value, StopLoss(input);
            var result := ComputePnl(input, mode).value;
            var wideNet := Abs(Net(t, mode).u) >= Pow10(NET_INTEGER_DIGITS + CURRENCY_SCALE);
            && (result == OutOfRange(NetPnl) <==> wideNet)
            && (result == OutOfRange(RMultiple)
                <==> && !wideNet
                     && RiskDefined(t, stopLoss, mode)
                     && Abs(RMultipleOf(t, stopLoss, mode).u) >= Pow10(R_INTEGER_DIGITS + R_SCALE))
  {
    AnswerOutOfRange(ParseTrade(input).value, StopLoss(input), mode);
  }

  // ---------------------------------------------------------------- ok results

  lemma AnswerOk(t: Trade, stopLoss: Result<Option<Fixed>, DecimalError>, mode: RoundingMode)
    requires Answer(t, stopLoss, mode).Success? && Answer(t, stopLoss, mode).value.Ok?
    ensures RiskDefined(t, stopLoss, mode)
    ensures var ok := Answer(t, stopLoss, mode).value;
            && ok.grossPnl == ToString(Gross(t, mode))
            && ok.netPnl == ToString(Net(t, mode))
            && ok.risk == ToString(Risk(t, stopLoss.value.value, mode))
            && ok.rMultiple == ToString(RMultipleOf(t, stopLoss, mode))
  {
  }

  /** What an `ok` answer prints: the four fixed-point values, at their scales. */
  lemma OkFields(input: PnlInput, mode: RoundingMode)
    requires ComputePnl(input, mode).Success? && ComputePnl(input, mode).value.Ok?
    ensures ParseTrade(input).Success? && RiskDefined(ParseTrade(input).value, StopLoss(input), mode)
    ensures var t := ParseTrade(input).value;
            var ok := ComputePnl(input, mode).value;
            && FromString(ok.grossPnl) == Success(Gross(t, mode))
            && FromString(ok.netPnl) == Success(Net(t, mode))
            && FromString(ok.risk) == Success(Risk(t, StopLoss(input).value.value, mode))
            && FromString(ok.rMultiple) == Success(RMultipleOf(t, StopLoss(input), mode))
  {
    var t := ParseTrade(input).value;
    AnswerOk(t, StopLoss(input), mode);
    RoundTrip(Gross(t, mode));
    RoundTrip(Net(t, mode));
    RoundTrip(Risk(t, StopLoss(input).value.value, mode));
    RoundTrip(RMultipleOf(t, StopLoss(input), mode));
  }

  /** How far q * d may miss n when q is n/d rounded. */
  predicate WithinRounding(n: int, d: int, mode: RoundingMode, q: int) {
    match mode
    case BcmathTruncate => Abs(q * d - n) < Abs(d) && Abs(q * d) <= Abs(n)
    case HalfEven => 2 * Abs(q * d - n) <= Abs(d)
  }

  lemma RoundsWithin(n: int, d: int, mode: RoundingMode, q: int)
    requires d > 0 && RoundsTo(n, d, mode, q)
    ensures WithinRounding(n, d, mode, q)
  {
    if mode == BcmathTruncate {
      QuotientSign(n, d, q);
    }
  }

  lemma QuotientWithin(n: int, d: int, mode: RoundingMode)
    requires d != 0
    ensures WithinRounding(n, d, mode, RoundQuotient(n, d, mode))
  {
    hide RoundQuotient, WithinRounding;
    var q := RoundQuotient(n, d, mode);
    if d > 0 {
      QuotientExact(n, d, mode, q);
      RoundsWithin(n, d, mode, q);
    } else {
      SignSymmetric(n, -d, mode);
      QuotientExact(-n, -d, mode, q);
      RoundsWithin(-n, -d, mode, q);
      NegatedWithin(-n, -d, mode, q);
    }
  }

  lemma NegatedWithin(n: int, d: int, mode: RoundingMode, q: int)
    requires WithinRounding(n, d, mode, q)
    ensures WithinRounding(-n, -d, mode, q)
  {
    assert q * -d == -(q * d);
  }

  /** The quotient at scale 8 of two values at scale 2, against its own numerator. */
  lemma QuotientError(net: Fixed, risk: Fixed, mode: RoundingMode)
    requires net.s == CURRENCY_SCALE && risk.s == CURRENCY_SCALE && risk.u != 0
    ensures Div(net, risk, R_SCALE, mode).Success?
    ensures WithinRounding(net.u * Pow10(R_SCALE), risk.u, mode, Div(net, risk, R_SCALE, mode).value.u)
  {
    var c, e := Pow10(CURRENCY_SCALE), Pow10(R_SCALE);
    Pow10Add(R_SCALE, CURRENCY_SCALE);
    assert net.u * (e * c) == (net.u * e) * c;
    CancelSigned(net.u * e, risk.u, c, mode);
    QuotientWithin(net.u * e, risk.u, mode);
  }

  /** The bound as it reads with a signed risk: below risk when truncating, at most half of it in half-even mode. */
  predicate SignedBound(net: int, risk: int, r: int, mode: RoundingMode) {
    var miss := Abs(r * risk - net * Pow10(R_SCALE));
    match mode
    case BcmathTruncate => miss < risk
    case HalfEven => 2 * miss <= risk
  }

  lemma SignedExactly(net: int, risk: int, r: int, mode: RoundingMode)
    requires risk != 0 && WithinRounding(net * Pow10(R_SCALE), risk, mode, r)
    ensures SignedBound(net, risk, r, mode) <==> risk > 0
  {
    hide Pow10;
  }

  /** Volume and contract size are both positive, or both are not. */
  predicate SameSigns(t: Trade) {
    (t.volume.u > 0) == (t.contractSize.u > 0)
  }

  lemma RescaleSign(f: Fixed, scale: nat, mode: RoundingMode)
    ensures f.u >= 0 ==> Rescale(f, scale, mode).u >= 0
    ensures f.u <= 0 ==> Rescale(f, scale, mode).u <= 0
  {
    if scale > f.s {
      ProductSign(f.u, Pow10(scale - f.s));
    }
  }

  lemma ProductSign(a: int, b: int)
    requires b > 0
    ensures a > 0 ==> a * b > 0
    ensures a == 0 ==> a * b == 0
    ensures a < 0 ==> a * b < 0
  {
  }

  lemma ThreeSigns(delta: int, volume: int, size: int)
    requires delta > 0 && volume * delta * size != 0
    ensures volume * delta * size > 0 <==> ((volume > 0) == (size > 0))
  {
    ProductSign(volume, delta);
    if size > 0 {
      ProductSign(volume * delta, size);
    } else if size < 0 {
      ProductSign(volume * delta, -size);
      assert volume * delta * -size == -(volume * delta * size);
    }
  }

  /** A defined risk is positive exactly when volume and contract size have the same sign. */
  lemma RiskSign(t: Trade, stopLoss: Result<Option<Fixed>, DecimalError>, mode: RoundingMode)
    requires RiskDefined(t, stopLoss, mode)
    ensures Risk(t, stopLoss.value.value, mode).u > 0 <==> SameSigns(t)
  {
    hide Rescale, Pow10;
    var delta := RiskDelta(t, stopLoss.value.value);
    CmpExact(delta, Fixed(0, 0), delta.s);
    PositiveUnits(delta);
    var exact := Mul(Mul(delta, t.volume), t.contractSize);
    hide RiskDelta;
    RescaleSign(exact, CURRENCY_SCALE, mode);
    assert exact.u == t.volume.u * delta.u * t.contractSize.u;
    ThreeSigns(delta.u, t.volume.u, t.contractSize.u);
  }

  lemma PositiveUnits(f: Fixed)
    ensures Units(f, f.s) == f.u && Units(Fixed(0, 0), f.s) == 0
  {
    assert Pow10(0) == 1;
  }

  lemma QuotientBound(net: Fixed, risk: Fixed, mode: RoundingMode)
    requires net.s == CURRENCY_SCALE && risk.s == CURRENCY_SCALE && risk.u != 0
    ensures Div(net, risk, R_SCALE, mode).Success?
    ensures var r := Div(net, risk, R_SCALE, mode).value.u;
            && WithinRounding(net.u * Pow10(R_SCALE), risk.u, mode, r)
            && (SignedBound(net.u, risk.u, r, mode) <==> risk.u > 0)
  {
    QuotientError(net, risk, mode);
    hide WithinRounding, SignedBound, Div, Pow10;
    SignedExactly(net.u, risk.u, Div(net, risk, R_SCALE, mode).value.u, mode);
  }

  /**
   Every `ok` answer, on the values that `OkFields` reads back from it, has R times risk miss net by
   less than |risk| * 10^-8 when truncating, never past net, and by at most half of that in half-even
   mode. With a signed risk the bound holds exactly when volume and contract size have the same
   sign. Cents for net and risk, units of 10^-8 for R.
   */
  lemma OkBound(input: PnlInput, mode: RoundingMode, net: Fixed, risk: Fixed, r: Fixed)
    requires ComputePnl(input, mode).Success? && ComputePnl(input, mode).value.Ok?
    requires var ok := ComputePnl(input, mode).value;
             && FromString(ok.netPnl) == Success(net)
             && FromString(ok.risk) == Success(risk)
             && FromString(ok.rMultiple) == Success(r)
    ensures net.s == CURRENCY_SCALE && risk.s == CURRENCY_SCALE && r.s == R_SCALE
    ensures ParseTrade(input).Success?
    ensures WithinRounding(net.u * Pow10(R_SCALE), risk.u, mode, r.u)
    ensures SignedBound(net.u, risk.u, r.u, mode) <==> SameSigns(ParseTrade(input).value)
  {
    hide Pow10, FromString, WithinRounding, SignedBound, SameSigns, Div, StopLoss, ParseTrade, ComputePnl, Risk, Net,
      Gross;
    OkFields(input, mode);
    DefinedRisk(ParseTrade(input).value, StopLoss(input), mode);
    QuotientBound(net, risk, mode);
    RiskSign(ParseTrade(input).value, StopLoss(input), mode);
  }

  lemma DefinedRisk(t: Trade, stopLoss: Result<Option<Fixed>, DecimalError>, mode: RoundingMode)
    requires RiskDefined(t, stopLoss, mode)
    ensures stopLoss.Success? && stopLoss.value.Some? && Risk(t, stopLoss.value.value, mode).u != 0
  {
  }

  // ---------------------------------------------------------------- inputs as text

  /** The input that writes out a trade and a stop. */
  function InputOf(t: Trade, stop: Fixed): PnlInput {
    PnlInput(t.direction, ToString(t.entry), ToString(t.exit), ToString(t.volume), ToString(t.contractSize),
             ToString(t.commission), ToString(t.swap), Some(ToString(stop)))
  }

  lemma InputParses(t: Trade, stop: Fixed)
    requires stop.u != 0
    ensures ParseTrade(InputOf(t, stop)) == Success(t)
    ensures StopLoss(InputOf(t, stop)) == Success(Some(stop))
  {
    RoundTrip(t.entry);
    RoundTrip(t.exit);
    RoundTrip(t.volume);
    RoundTrip(t.contractSize);
    RoundTrip(t.commission);
    RoundTrip(t.swap);
    RoundTrip(stop);
    NonEmptyText(stop);
    hide ToString, FromString;
  }

  lemma NonEmptyText(f: Fixed)
    ensures ToString(f) != ""
  {
    hide PadStart, PrintNat;
  }

  /** A trade whose net, risk and R fit their ranges is answered `ok`, with those values. */
  lemma AnsweredOk(t: Trade, stop: Fixed, mode: RoundingMode)
    requires stop.u != 0 && RiskDefined(t, Success(Some(stop)), mode)
    requires Abs(Net(t, mode).u) < Pow10(NET_INTEGER_DIGITS + CURRENCY_SCALE)
    requires Abs(RMultipleOf(t, Success(Some(stop)), mode).u) < Pow10(R_INTEGER_DIGITS + R_SCALE)
    ensures ComputePnl(InputOf(t, stop), mode)
         == Success(Ok(ToString(Gross(t, mode)), ToString(Net(t, mode)), ToString(Risk(t, stop, mode)),
                       ToString(RMultipleOf(t, Success(Some(stop)), mode))))
  {
    hide ToString, FitsRange, Gross, Net, Risk, RiskDelta, Cmp, Pow10, ParseTrade, StopLoss, InputOf;
    InputParses(t, stop);
    GuardIsMagnitude(Net(t, mode), NET_INTEGER_DIGITS, FRACTION_DIGITS);
    GuardIsMagnitude(RMultipleOf(t, Success(Some(stop)), mode), R_INTEGER_DIGITS, FRACTION_DIGITS);
  }

  /** A trade of `size` lots of one at prices of one scale, without charges, is worth its difference. */
  lemma PlainTrade(t: Trade, stop: Fixed, mode: RoundingMode)
    requires t.direction == Buy && t.entry.s == t.exit.s == stop.s && t.entry.s <= CURRENCY_SCALE
    requires t.volume.s == 0 && t.contractSize == Fixed(1, 0) && t.commission == t.swap == Fixed(0, 0)
    ensures var c := Pow10(CURRENCY_SCALE - t.entry.s);
            && Gross(t, mode) == Net(t, mode) == Fixed((t.exit.u - t.entry.u) * t.volume.u * c, CURRENCY_SCALE)
            && Risk(t, stop, mode) == Fixed((t.entry.u - stop.u) * t.volume.u * c, CURRENCY_SCALE)
    ensures Cmp(RiskDelta(t, stop), Fixed(0, 0)) > 0 <==> t.entry.u > stop.u
  {
    hide Pow10, Cmp, RoundQuotient;
    SameScale(t.exit, t.entry);
    SameScale(t.entry, stop);
    var delta := RiskDelta(t, stop);
    CmpExact(delta, Fixed(0, 0), delta.s);
    PositiveUnits(delta);
    CentsOf(Fixed((t.exit.u - t.entry.u) * t.volume.u, t.entry.s), mode);
    CentsOf(Fixed((t.entry.u - stop.u) * t.volume.u, t.entry.s), mode);
    NoCharge(Gross(t, mode), mode);
  }

  lemma SameScale(a: Fixed, b: Fixed)
    requires a.s == b.s
    ensures Sub(a, b) == Fixed(a.u - b.u, a.s)
  {
    assert Pow10(0) == 1;
  }

  lemma CentsOf(f: Fixed, mode: RoundingMode)
    requires f.s <= CURRENCY_SCALE
    ensures Money(Mul(f, Fixed(1, 0)), mode) == Fixed(f.u * Pow10(CURRENCY_SCALE - f.s), CURRENCY_SCALE)
  {
    assert Pow10(0) == 1;
  }

  lemma NoCharge(gross: Fixed, mode: RoundingMode)
    requires gross.s == CURRENCY_SCALE
    ensures Money(Sub(Sub(gross, Fixed(0, 0)), Fixed(0, 0)), mode) == gross
  {
    assert Pow10(0) == 1;
    assert Units(Fixed(0, 0), CURRENCY_SCALE) == 0;
  }

  /** A long from 8 to 9 with its stop at 7, and a volume of -1. */
  const SHORTED: Trade := Trade(Buy, Fixed(8, 0), Fixed(9, 0), Fixed(-1, 0), Fixed(1, 0), Fixed(0, 0), Fixed(0, 0))

  /** The input is what one would type. */
  lemma ShortedText()
    ensures InputOf(SHORTED, Fixed(7, 0)) == PnlInput(Buy, "8", "9", "-1", "1", "0", "0", Some("7"))
  {
    OneDigitText(8);
    OneDigitText(9);
    OneDigitText(1);
    OneDigitText(0);
    OneDigitText(7);
    hide ToString;
  }

  lemma ShortedNumbers(mode: RoundingMode)
    ensures Net(SHORTED, mode) == Fixed(-100, 2) && Risk(SHORTED, Fixed(7, 0), mode) == Fixed(-100, 2)
    ensures Cmp(RiskDelta(SHORTED, Fixed(7, 0)), Fixed(0, 0)) > 0
  {
    hide Pow10, Net, Risk, RiskDelta, Cmp, Gross, Rescale, Money;
    Hundred();
    PlainTrade(SHORTED, Fixed(7, 0), mode);
    var c: int := Pow10(CURRENCY_SCALE);
    assert CURRENCY_SCALE - SHORTED.entry.s == CURRENCY_SCALE;
    assert (9 - 8) * -1 * c == -100 && (8 - 7) * -1 * c == -100;
  }

  lemma ShortedMultiple(mode: RoundingMode)
    ensures Div(Fixed(-100, 2), Fixed(-100, 2), R_SCALE, mode) == Success(Fixed(Pow10(R_SCALE), R_SCALE))
  {
    var p := Pow10(R_SCALE);
    assert Pow10(2) == 100;
    Pow10Add(R_SCALE, 2);
    assert RoundsTo(100 * (100 * p), 10000, mode, p);
    hide Pow10, RoundQuotient, RoundsTo;
    DivExact(Fixed(-100, 2), Fixed(-100, 2), R_SCALE, mode, p);
  }

  /** Typed as "8", "9", "-1", "1", "0", "0" and "7" it is answered `ok` with risk -1.00, and the signed bound fails. */
  lemma NegativeRiskIsAnsweredOk(mode: RoundingMode)
    ensures ComputePnl(InputOf(SHORTED, Fixed(7, 0)), mode).Success?
    ensures var answer := ComputePnl(InputOf(SHORTED, Fixed(7, 0)), mode).value;
            && answer.Ok? && FromString(answer.risk) == Success(Fixed(-100, 2))
            && FromString(answer.netPnl) == Success(Fixed(-100, 2))
            && FromString(answer.rMultiple) == Success(Fixed(Pow10(R_SCALE), R_SCALE))
            && !SignedBound(-100, -100, Pow10(R_SCALE), mode)
  {
    hide Pow10, ToString, FromString, Net, Risk, RiskDelta, Cmp, Div, ComputePnl, InputOf, Gross;
    ShortedNumbers(mode);
    ShortedMultiple(mode);
    Pow10Strict(2, NET_INTEGER_DIGITS + CURRENCY_SCALE);
    Pow10Strict(R_SCALE, R_INTEGER_DIGITS + R_SCALE);
    Hundred();
    AnsweredOk(SHORTED, Fixed(7, 0), mode);
    RoundTrip(Fixed(-100, 2));
    RoundTrip(Fixed(Pow10(R_SCALE), R_SCALE));
  }

  lemma Hundred()
    ensures Pow10(2) == 100
  {
  }

  lemma Pow10Strict(a: nat, b: nat)
    requires a < b
    ensures Pow10(a) < Pow10(b)
  {
    Pow10Monotone(a, b - 1);
  }

  /** A short trade and the long trade between the same prices have exactly opposite gross results. */
  lemma OppositeDirections(t: Trade, mode: RoundingMode)
    ensures Gross(t.(direction := Buy), mode).u == -Gross(t.(direction := Sell), mode).u
  {
    hide Sub, Rescale;
    var b, s := Sub(t.exit, t.entry), Sub(t.entry, t.exit);
    SwappedSub(t.exit, t.entry);
    NegateProduct(s.u, t.volume.u);
    NegateProduct(s.u * t.volume.u, t.contractSize.u);
    NegateRescale(Mul(Mul(s, t.volume), t.contractSize), CURRENCY_SCALE, mode);
  }

  lemma SwappedSub(a: Fixed, b: Fixed)
    ensures Sub(a, b).s == Sub(b, a).s && Sub(a, b).u == -Sub(b, a).u
  {
    hide Units;
  }

  lemma NegateProduct(a: int, b: int)
    ensures (-a) * b == -(a * b)
  {
  }

  lemma NegateRescale(f: Fixed, scale: nat, mode: RoundingMode)
    ensures Rescale(Fixed(-f.u, f.s), scale, mode).u == -Rescale(f, scale, mode).u
  {
    if scale < f.s {
      SignSymmetric(f.u, Pow10(f.s - scale), mode);
    } else {
      assert (-f.u) * Pow10(scale - f.s) == -(f.u * Pow10(scale - f.s));
    }
  }

  /** With charges at currency scale nothing is rounded away between gross and net. */
  lemma NetConserved(t: Trade, mode: RoundingMode)
    requires t.commission.s <= CURRENCY_SCALE && t.swap.s <= CURRENCY_SCALE
    ensures Net(t, mode).u + Units(t.commission, CURRENCY_SCALE) + Units(t.swap, CURRENCY_SCALE) == Gross(t, mode).u
  {
    var g := Gross(t, mode);
    SubExact(g, t.commission, CURRENCY_SCALE);
    SubExact(Sub(g, t.commission), t.swap, CURRENCY_SCALE);
    assert Pow10(0) == 1;
  }
}
