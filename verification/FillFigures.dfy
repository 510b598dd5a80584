/**
 Sums, averages and boundaries of fills, told on the fills' own fields: what the figures of an
 assembled trade mean.
 */
module FillFigures {
  import opened Wrappers
  import opened Digits
  import opened Decimal
  import opened Sequences
  import opened FillArithmetic
  import Text

  // ---------------------------------------------------------------- sums

  /** A decimal cut off, toward zero, at eight decimals: its value in units of 10^-8. */
  function Cut(text: string): int {
    var f := FromString(text);
    if f.Failure? then 0 else RoundQuotient(f.value.u * Pow10(8), Pow10(f.value.s), BcmathTruncate)
  }

  predicate Present(value: Option<string>) {
    value.Some? && value.value != ""
  }

  /** The texts that are present, cut and added up. */
  function Total(fills: seq<Fill>, pick: Fill -> Option<string>): int {
    if fills == [] then 0
    else
      var n := |fills| - 1;
      Total(fills[..n], pick) + if Present(pick(fills[n])) then Cut(pick(fills[n]).value) else 0
  }

  predicate NonePresent(fills: seq<Fill>, pick: Fill -> Option<string>) {
    forall i :: 0 <= i < |fills| ==> !Present(pick(fills[i]))
  }

  predicate AllParse(fills: seq<Fill>, pick: Fill -> Option<string>) {
    forall i :: 0 <= i < |fills| && Present(pick(fills[i])) ==> FromString(pick(fills[i]).value).Success?
  }

  /** What a sum of money prints: eight decimals, or the bare zero of a field no fill carries. */
  function SumText(fills: seq<Fill>, pick: Fill -> Option<string>): string {
    if NonePresent(fills, pick) then "0" else ToString(Fixed(Total(fills, pick), 8))
  }

  lemma CutIsAt8(text: string)
    ensures Cut(text) == At8(text)
    ensures FromString(text).Success? <==> IsDecimal(text)
  {
    hide IsDecimal, RoundQuotient;
    if FromString(text).Success? {
      var f := FromString(text).value;
      CutIsRescaled(f);
    }
  }

  lemma CutIsRescaled(f: Fixed)
    ensures RoundQuotient(f.u * Pow10(8), Pow10(f.s), BcmathTruncate) == Rescale(f, 8, BcmathTruncate).u
  {
    hide Pow10, RoundQuotient, RoundsTo, Rescale;
    RescaleRounds(f, 8, BcmathTruncate);
    QuotientExact(f.u * Pow10(8), Pow10(f.s), BcmathTruncate, Rescale(f, 8, BcmathTruncate).u);
  }

  lemma {:induction false} TotalIsSum(fills: seq<Fill>, field: Field, pick: Fill -> Option<string>)
    requires forall f: Fill :: pick(f) == Read(f, field)
    ensures Total(fills, pick) == SumBy(fills, FieldUnits(field))
  {
    hide Cut, At8, Read;
    if fills != [] {
      var n := |fills| - 1;
      TotalIsSum(fills[..n], field, pick);
      assert pick(fills[n]) == Read(fills[n], field);
      if Present(pick(fills[n])) {
        CutIsAt8(pick(fills[n]).value);
      }
    }
  }

  lemma PresenceIsCarrying(fills: seq<Fill>, field: Field, pick: Fill -> Option<string>)
    requires forall f: Fill :: pick(f) == Read(f, field)
    ensures NonePresent(fills, pick) <==> !AnyCarries(fills, field)
    ensures AllParse(fills, pick) <==> Summable(fills, field)
  {
    hide IsDecimal, Read, FromString;
    forall i | 0 <= i < |fills|
      ensures Present(pick(fills[i])) <==> Carries(fills[i], field)
      ensures Carries(fills[i], field) ==>
                (FromString(pick(fills[i]).value).Success? <==> IsDecimal(Read(fills[i], field).value))
    {
      assert pick(fills[i]) == Read(fills[i], field);
      if Carries(fills[i], field) {
        CutIsAt8(Read(fills[i], field).value);
      }
    }
    if !NonePresent(fills, pick) {
      var i :| 0 <= i < |fills| && Present(pick(fills[i]));
      assert fills[i] in fills && Carries(fills[i], field);
    }
    if AllParse(fills, pick) {
      forall f | f in fills && Carries(f, field)
        ensures IsDecimal(Read(f, field).value)
      {
        var i :| 0 <= i < |fills| && fills[i] == f;
      }
    } else {
      var i :| 0 <= i < |fills| && Present(pick(fills[i])) && FromString(pick(fills[i]).value).Failure?;
      assert fills[i] in fills && Carries(fills[i], field);
    }
  }

  /** The sum of a field is the total of what `pick` reads, and prints as such. */
  lemma SumOnFields(fills: seq<Fill>, field: Field, pick: Fill -> Option<string>)
    requires forall f: Fill :: pick(f) == Read(f, field)
    ensures Sum(fills, field).Success? <==> AllParse(fills, pick)
    ensures Sum(fills, field).Success? ==> (Sum(fills, field).value.None? <==> NonePresent(fills, pick))
    ensures Sum(fills, field).Success? && Sum(fills, field).value.Some? ==>
              Sum(fills, field).value.value == Total(fills, pick)
  {
    hide Read, Total, NonePresent, AllParse, Summable, AnyCarries, FieldUnits;
    TotalIsSum(fills, field, pick);
    PresenceIsCarrying(fills, field, pick);
  }

  // ---------------------------------------------------------------- averages

  /** Priced, with a volume other than the literal "0". */
  predicate Priced(f: Fill) {
    f.price.Some? && f.volume.Some? && f.volume.value != "0"
  }

  predicate PricesParse(fills: seq<Fill>) {
    forall i :: 0 <= i < |fills| && Priced(fills[i]) ==>
                  FromString(fills[i].price.value).Success? && FromString(fills[i].volume.value).Success?
  }

  /** Price times volume, cut at eight decimals. */
  function CutProduct(price: string, volume: string): int {
    var p, v := FromString(price), FromString(volume);
    if p.Failure? || v.Failure? then 0
    else RoundQuotient(p.value.u * v.value.u * Pow10(8), Pow10(p.value.s + v.value.s), BcmathTruncate)
  }

  function Turnover(fills: seq<Fill>): int {
    if fills == [] then 0
    else
      var n := |fills| - 1;
      Turnover(fills[..n]) + if Priced(fills[n]) then CutProduct(fills[n].price.value, fills[n].volume.value) else 0
  }

  function PricedVolume(fills: seq<Fill>): int {
    if fills == [] then 0
    else
      var n := |fills| - 1;
      PricedVolume(fills[..n]) + if Priced(fills[n]) then Cut(fills[n].volume.value) else 0
  }

  /** The turnover over the volume it was made with, cut at eight decimals. */
  predicate IsAveragePrice(fills: seq<Fill>, price: int) {
    var turnover, volume := Turnover(fills), PricedVolume(fills);
    && PricesParse(fills) && volume != 0
    && RoundsTo(if volume < 0 then -(turnover * Pow10(8)) else turnover * Pow10(8), Abs(volume), BcmathTruncate, price)
  }

  lemma {:induction false} TurnoverIsSum(fills: seq<Fill>)
    ensures Turnover(fills) == SumBy(fills, Products())
    ensures PricedVolume(fills) == SumBy(fills, Weights())
  {
    hide Cut, CutProduct, At8, ProductUnits;
    if fills != [] {
      var n := |fills| - 1;
      TurnoverIsSum(fills[..n]);
      if Priced(fills[n]) {
        CutIsAt8(fills[n].volume.value);
        CutProductIsProduct(fills[n]);
      } else {
        NoProduct(fills[n]);
      }
    }
  }

  lemma NoProduct(f: Fill)
    requires !Priced(f)
    ensures ProductUnits(f) == 0 && WeightUnits(f) == 0
  {
  }

  lemma CutProductIsProduct(f: Fill)
    requires Priced(f)
    ensures CutProduct(f.price.value, f.volume.value) == ProductUnits(f)
  {
    hide IsDecimal, RoundQuotient, Rescale;
    CutIsAt8(f.price.value);
    CutIsAt8(f.volume.value);
    var p, v := FromString(f.price.value), FromString(f.volume.value);
    if p.Success? && v.Success? {
      CutIsRescaled(Mul(p.value, v.value));
    }
    hide At8, Cut;
  }

  lemma ParsingIsAverageable(fills: seq<Fill>)
    ensures PricesParse(fills) <==> Averageable(fills)
  {
    hide IsDecimal, FromString;
    forall i | 0 <= i < |fills| && Priced(fills[i])
      ensures FromString(fills[i].price.value).Success? <==> IsDecimal(fills[i].price.value)
      ensures FromString(fills[i].volume.value).Success? <==> IsDecimal(fills[i].volume.value)
    {
      CutIsAt8(fills[i].price.value);
      CutIsAt8(fills[i].volume.value);
    }
    if PricesParse(fills) {
      forall f | f in fills && Weighs(f)
        ensures IsDecimal(f.price.value) && IsDecimal(f.volume.value)
      {
        var i :| 0 <= i < |fills| && fills[i] == f;
      }
    } else {
      var i :| 0 <= i < |fills| && Priced(fills[i])
               && (FromString(fills[i].price.value).Failure? || FromString(fills[i].volume.value).Failure?);
      assert fills[i] in fills && Weighs(fills[i]);
    }
  }

  lemma AverageOnFields(fills: seq<Fill>)
    ensures Average(fills).Success? <==> PricesParse(fills)
    ensures Average(fills).Success? ==> (Average(fills).value.None? <==> PricedVolume(fills) == 0)
    ensures Average(fills).Success? && Average(fills).value.Some? ==> IsAveragePrice(fills, Average(fills).value.value)
  {
    hide Turnover, PricedVolume, PricesParse, Averageable, Pow10, RoundsTo, RoundQuotient;
    TurnoverIsSum(fills);
    ParsingIsAverageable(fills);
    var n, d := Turnover(fills) * Pow10(8), PricedVolume(fills);
    if d > 0 {
      QuotientExact(n, d, BcmathTruncate, RoundQuotient(n, d, BcmathTruncate));
    } else if d < 0 {
      SignSymmetric(-n, -d, BcmathTruncate);
      QuotientExact(-n, -d, BcmathTruncate, RoundQuotient(n, d, BcmathTruncate));
    }
  }

  lemma PriceOnce(fills: seq<Fill>, a: int, b: int)
    requires IsAveragePrice(fills, a) && IsAveragePrice(fills, b)
    ensures a == b
  {
    hide Turnover, PricedVolume, PricesParse, Pow10, RoundsTo;
    var n, d := Turnover(fills) * Pow10(8), PricedVolume(fills);
    RoundsToUnique(if d < 0 then -n else n, Abs(d), BcmathTruncate, a, b);
  }

  // ---------------------------------------------------------------- first fills

  /** `f` carries an instant. */
  predicate Timed(f: Fill) {
    f.occurredAtUtc.Some? && f.occurredAtUtc.value != ""
  }

  /** The first of the timed fills with the earliest instant. */
  predicate IsEarliest(fills: seq<Fill>, i: nat) {
    && i < |fills| && Timed(fills[i])
    && (forall j :: 0 <= j < i && Timed(fills[j]) ==>
          Text.Less(fills[i].occurredAtUtc.value, fills[j].occurredAtUtc.value))
    && (forall j :: i < j < |fills| && Timed(fills[j]) ==>
          !Text.Less(fills[j].occurredAtUtc.value, fills[i].occurredAtUtc.value))
  }

  /** The first of the timed fills with the latest instant. */
  predicate IsLatest(fills: seq<Fill>, i: nat) {
    && i < |fills| && Timed(fills[i])
    && (forall j :: 0 <= j < i && Timed(fills[j]) ==>
          Text.Less(fills[j].occurredAtUtc.value, fills[i].occurredAtUtc.value))
    && (forall j :: i < j < |fills| && Timed(fills[j]) ==>
          !Text.Less(fills[i].occurredAtUtc.value, fills[j].occurredAtUtc.value))
  }

  /** A symbol with more than blanks in it. */
  predicate HasSymbol(f: Fill) {
    f.symbol.Some? && Text.JsTrim(f.symbol.value) != ""
  }

  predicate IsFirst(fills: seq<Fill>, i: nat, wanted: Fill -> bool) {
    && i < |fills| && wanted(fills[i])
    && forall j :: 0 <= j < i ==> !wanted(fills[j])
  }
}
