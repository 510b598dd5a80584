/** Where the two R-multiple scales meet: eight decimals stored here, four stored by the legacy system. */
module LegacyParity {
  import opened Wrappers
  import opened Digits
  import opened Decimal
  import Pnl

  const LEGACY_CURRENCY_SCALE: nat := 2
  const LEGACY_R_SCALE: nat := 4

  function ToLegacyScale(value: string, scale: nat): Result<string, DecimalError> {
    var f :- FromString(value);
    Success(ToString(Rescale(f, scale, BcmathTruncate)))
  }

  /** Numeric comparison at the legacy scale. */
  function LegacyParityEqual(modern: string, legacy: string, scale: nat): Result<bool, DecimalError> {
    var printed :- ToLegacyScale(modern, scale);
    var a :- FromString(printed);
    var b :- FromString(legacy);
    Success(Cmp(a, b) == 0)
  }

  function RMultipleParity(modernR: string, legacyR: string): Result<bool, DecimalError> {
    LegacyParityEqual(modernR, legacyR, LEGACY_R_SCALE)
  }

  function Ratio(numerator: string, denominator: string, scale: nat, mode: RoundingMode): Result<Fixed, DecimalError> {
    var d :- FromString(denominator);
    if d.u == 0 then Failure(ZeroDivision)
    else
      var n :- FromString(numerator);
      Div(n, d, scale, mode)
  }

  function LegacyRMultiple(netPnl: string, risk: string): Result<string, DecimalError> {
    var quotient :- Ratio(netPnl, risk, 8, BcmathTruncate);
    Success(ToString(Rescale(quotient, LEGACY_R_SCALE, BcmathTruncate)))
  }

  /** Rendering at a legacy scale is idempotent, and coarser renderings ignore finer ones. */
  lemma LegacyScaleIdempotent(value: string, fine: nat, coarse: nat)
    requires coarse <= fine && FromString(value).Success?
    ensures ToLegacyScale(value, fine).Success?
    ensures ToLegacyScale(ToLegacyScale(value, fine).value, coarse) == ToLegacyScale(value, coarse)
  {
    var f := FromString(value).value;
    RoundTrip(Rescale(f, fine, BcmathTruncate));
    NestedTruncation(f, fine, coarse);
  }

  /** A legacy value compares equal exactly when it is, as a number, the truncation of the modern one. */
  lemma ParityIsNumeric(modern: string, legacy: string, scale: nat)
    requires FromString(modern).Success? && FromString(legacy).Success?
    ensures var m, l := Rescale(FromString(modern).value, scale, BcmathTruncate), FromString(legacy).value;
            var k := MaxScale(scale, l.s);
            LegacyParityEqual(modern, legacy, scale) == Success(Units(m, k) == Units(l, k))
  {
    var m, l := Rescale(FromString(modern).value, scale, BcmathTruncate), FromString(legacy).value;
    RoundTrip(m);
    CmpExact(m, l, MaxScale(scale, l.s));
  }

  /**
   The historical recomputation never flakes: for every trade answered `ok` in truncate mode,
   the modern R at legacy scale, the legacy R recomputed from the printed net and risk, and
   net/risk truncated once at scale 4 are the same string.
   */
  lemma TruncateModeParity(input: Pnl.PnlInput)
    requires Pnl.ComputePnl(input, BcmathTruncate).Success?
    requires Pnl.ComputePnl(input, BcmathTruncate).value.Ok?
    ensures var ok := Pnl.ComputePnl(input, BcmathTruncate).value;
            var legacy := LegacyRMultiple(ok.netPnl, ok.risk);
            && legacy.Success?
            && ToLegacyScale(ok.rMultiple, LEGACY_R_SCALE) == legacy
            && Ratio(ok.netPnl, ok.risk, LEGACY_R_SCALE, BcmathTruncate).Success?
            && legacy.value == ToString(Ratio(ok.netPnl, ok.risk, LEGACY_R_SCALE, BcmathTruncate).value)
            && RMultipleParity(ok.rMultiple, legacy.value) == Success(true)
  {
    var mode := BcmathTruncate;
    var ok := Pnl.ComputePnl(input, mode).value;
    Pnl.OkFields(input, mode);
    var net, risk := FromString(ok.netPnl).value, FromString(ok.risk).value;
    DivThenTruncate(net, risk, 8, LEGACY_R_SCALE);
    var quotient := Div(net, risk, 8, mode).value;
    var coarse := Rescale(quotient, LEGACY_R_SCALE, mode);
    RoundTrip(coarse);
    ParityIsNumeric(ok.rMultiple, ToString(coarse), LEGACY_R_SCALE);
  }

  /** The half-even quotient at scale 8 is bumped out of a run of nines into the fourth decimal. */
  predicate CarriesPastLegacyScale(net: Fixed, risk: Fixed)
    requires risk.u != 0 && net.s == risk.s
  {
    var n, d := Abs(net.u) * Pow10(8), Abs(risk.u);
    RoundMagnitude(n, d, HalfEven) != n / d && (n / d) % 10000 == 9999
  }

  lemma CarryStep(q: nat, bumped: nat)
    requires bumped == q || bumped == q + 1
    ensures bumped / 10000 == q / 10000 <==> !(bumped != q && q % 10000 == 9999)
  {
  }

  lemma MagnitudeOfDiv(net: Fixed, risk: Fixed, mode: RoundingMode)
    requires risk.u != 0 && net.s == risk.s
    ensures Div(net, risk, 8, mode).Success?
    ensures var q: int := RoundMagnitude(Abs(net.u) * Pow10(8), Abs(risk.u), mode);
            Div(net, risk, 8, mode).value.u == if (net.u < 0) != (risk.u < 0) then -q else q
  {
    var c, e := Pow10(net.s), Pow10(8);
    Pow10Add(8, net.s);
    assert net.u * (e * c) == (net.u * e) * c;
    CancelSigned(net.u * e, risk.u, c, mode);
    ScaleOrder(net.u, 0, e);
    assert Abs(net.u * e) == Abs(net.u) * e;
  }

  lemma TruncatedToFour(f: Fixed)
    requires f.s == 8
    ensures var q: int := Abs(f.u) / 10000;
            Rescale(f, LEGACY_R_SCALE, BcmathTruncate).u == if f.u < 0 then -q else q
  {
    assert Pow10(4) == 10000;
  }

  /** The two legacy renderings of one ratio agree exactly when the bump does not carry. */
  lemma RenderingsAgree(net: Fixed, risk: Fixed)
    requires risk.u != 0 && net.s == risk.s
    ensures Div(net, risk, 8, HalfEven).Success? && Div(net, risk, 8, BcmathTruncate).Success?
    ensures Rescale(Div(net, risk, 8, HalfEven).value, LEGACY_R_SCALE, BcmathTruncate)
         == Rescale(Div(net, risk, 8, BcmathTruncate).value, LEGACY_R_SCALE, BcmathTruncate)
         <==> !CarriesPastLegacyScale(net, risk)
  {
    MagnitudeOfDiv(net, risk, HalfEven);
    MagnitudeOfDiv(net, risk, BcmathTruncate);
    TruncatedToFour(Div(net, risk, 8, HalfEven).value);
    TruncatedToFour(Div(net, risk, 8, BcmathTruncate).value);
    var n, d := Abs(net.u) * Pow10(8), Abs(risk.u);
    CarryStep(n / d, RoundMagnitude(n, d, HalfEven));
  }

  /**
   In half-even mode the legacy comparison of an `ok` answer succeeds exactly when no carry
   reaches the fourth decimal.
   */
  lemma HalfEvenParityExactly(input: Pnl.PnlInput, net: Fixed, risk: Fixed)
    requires Pnl.ComputePnl(input, HalfEven).Success?
    requires Pnl.ComputePnl(input, HalfEven).value.Ok?
    requires var ok := Pnl.ComputePnl(input, HalfEven).value;
             FromString(ok.netPnl) == Success(net) && FromString(ok.risk) == Success(risk)
    ensures net.s == risk.s && risk.u != 0
    ensures var ok := Pnl.ComputePnl(input, HalfEven).value;
            ToLegacyScale(ok.rMultiple, LEGACY_R_SCALE) == LegacyRMultiple(ok.netPnl, ok.risk)
            <==> !CarriesPastLegacyScale(net, risk)
  {
    Pnl.OkFields(input, HalfEven);
    RenderingsAgree(net, risk);
    var a := Rescale(Div(net, risk, 8, HalfEven).value, LEGACY_R_SCALE, BcmathTruncate);
    var b := Rescale(Div(net, risk, 8, BcmathTruncate).value, LEGACY_R_SCALE, BcmathTruncate);
    if ToString(a) == ToString(b) {
      PrintInjective(a, b);
    }
  }

  // ---------------------------------------------------------------- a trade on which they differ

  /** A long from 20000000.00 to 30000999.99 with its stop at 10000000.00: net 10000999.99 over risk 10000000.00. */
  const CARRIED: Pnl.Trade :=
    Pnl.Trade(Pnl.Buy, Fixed(2000000000, 2), Fixed(3000099999, 2), Fixed(1, 0), Fixed(1, 0), Fixed(0, 0), Fixed(0, 0))

  const CARRIED_STOP: Fixed := Fixed(1000000000, 2)

  lemma CarriedNumbers()
    ensures Pnl.Net(CARRIED, HalfEven) == Fixed(1000099999, 2)
        && Pnl.Risk(CARRIED, CARRIED_STOP, HalfEven) == Fixed(1000000000, 2)
    ensures Cmp(Pnl.RiskDelta(CARRIED, CARRIED_STOP), Fixed(0, 0)) > 0
  {
    hide Pow10, Pnl.Net, Pnl.Risk, Pnl.RiskDelta, Cmp, Pnl.Gross, Rescale, Pnl.Money;
    Pnl.PlainTrade(CARRIED, CARRIED_STOP, HalfEven);
    NoPower();
  }

  lemma NoPower()
    ensures Pow10(0) == 1
  {
  }

  lemma CarriedQuotients()
    ensures Div(Fixed(1000099999, 2), Fixed(1000000000, 2), 8, HalfEven) == Success(Fixed(100010000, 8))
    ensures Div(Fixed(1000099999, 2), Fixed(1000000000, 2), 8, BcmathTruncate) == Success(Fixed(100009999, 8))
  {
    assert Pow10(2) == 100 && Pow10(10) == 10000000000;
    hide Pow10, RoundQuotient;
    DivExact(Fixed(1000099999, 2), Fixed(1000000000, 2), 8, HalfEven, 100010000);
    DivExact(Fixed(1000099999, 2), Fixed(1000000000, 2), 8, BcmathTruncate, 100009999);
  }

  lemma CarriedRenderings()
    ensures Rescale(Fixed(100010000, 8), LEGACY_R_SCALE, BcmathTruncate) == Fixed(10001, 4)
    ensures Rescale(Fixed(100009999, 8), LEGACY_R_SCALE, BcmathTruncate) == Fixed(10000, 4)
  {
    assert Pow10(4) == 10000;
    hide Pow10, RoundQuotient;
    RescaleExact(Fixed(100010000, 8), LEGACY_R_SCALE, BcmathTruncate, 10001);
    RescaleExact(Fixed(100009999, 8), LEGACY_R_SCALE, BcmathTruncate, 10000);
  }

  lemma CarriedTexts()
    ensures ToString(Fixed(10001, 4)) == "1.0001" && ToString(Fixed(10000, 4)) == "1.0000"
  {
    hide PrintNat, ToString;
    OnePrinted();
    NextDigit(1000, 0, "1000");
    NextDigit(1000, 1, "1000");
    FiveDigits(10000, "1", "0000");
    FiveDigits(10001, "1", "0001");
  }

  lemma FiveDigits(n: nat, whole: string, frac: string)
    requires PrintNat(n) == whole + frac && |whole| == 1 && |frac| == 4
    ensures ToString(Fixed(n, 4)) == whole + "." + frac
  {
    hide PrintNat;
    assert (whole + frac)[..1] == whole && (whole + frac)[1..] == frac;
  }

  lemma NextDigit(n: nat, d: nat, text: string)
    requires n > 0 && d < 10 && PrintNat(n) == text
    ensures PrintNat(10 * n + d) == text + [DigitChar(d)]
  {
  }

  lemma OnePrinted()
    ensures PrintNat(1000) == "1000"
  {
    assert PrintNat(1) == "1";
    NextDigit(1, 0, "1");
    NextDigit(10, 0, "10");
    NextDigit(100, 0, "100");
    hide PrintNat;
  }

  lemma CarriedIsOk()
    ensures Pnl.ComputePnl(Pnl.InputOf(CARRIED, CARRIED_STOP), HalfEven)
         == Success(Pnl.Ok(ToString(Pnl.Gross(CARRIED, HalfEven)), ToString(Fixed(1000099999, 2)),
                           ToString(Fixed(1000000000, 2)), ToString(Fixed(100010000, 8))))
  {
    hide Pow10, ToString, FromString, Pnl.Net, Pnl.Risk, Pnl.RiskDelta, Cmp, Div, Pnl.ComputePnl, Pnl.InputOf,
      Pnl.Gross;
    CarriedNumbers();
    CarriedQuotients();
    Pow10Monotone(10, 18);
    TenthPower();
    Pnl.AnsweredOk(CARRIED, CARRIED_STOP, HalfEven);
  }

  lemma TenthPower()
    ensures Pow10(10) == 10000000000
  {
  }

  /** In half-even mode it is answered `ok`, its R renders as 1.0001, and the legacy system stored 1.0000. */
  lemma HalfEvenParityCanFail()
    ensures Pnl.ComputePnl(Pnl.InputOf(CARRIED, CARRIED_STOP), HalfEven).Success?
    ensures var answer := Pnl.ComputePnl(Pnl.InputOf(CARRIED, CARRIED_STOP), HalfEven).value;
            && answer.Ok?
            && FromString(answer.netPnl) == Success(Fixed(1000099999, 2))
            && FromString(answer.risk) == Success(Fixed(1000000000, 2))
            && ToLegacyScale(answer.rMultiple, LEGACY_R_SCALE) == Success("1.0001")
            && LegacyRMultiple(answer.netPnl, answer.risk) == Success("1.0000")
  {
    CarriedIsOk();
    CarriedQuotients();
    CarriedRenderings();
    CarriedTexts();
    RoundTrip(Fixed(1000099999, 2));
    RoundTrip(Fixed(1000000000, 2));
    RoundTrip(Fixed(100010000, 8));
    hide Pow10, ToString, FromString, Div, Rescale, Pnl.ComputePnl, Pnl.InputOf, Pnl.Gross;
  }
}
