/**
 Decimal sums and volume-weighted averages over fills, truncated at scale 8 as bcmath does, and
 how far truncation can move an average from the prices it averages.
 */
module FillArithmetic {
  import opened Wrappers
  import opened Digits
  import opened Decimal
  import opened Sequences

  datatype Side = In | Out

  datatype Direction = Buy | Sell

  /** One ledgered trade fill; decimals are strings. */
  datatype Fill = Fill(
    externalDealId: Option<string>, positionId: Option<string>, entryType: Option<Side>,
    direction: Option<Direction>, symbol: Option<string>, volume: Option<string>, price: Option<string>,
    profit: Option<string>, commission: Option<string>, swap: Option<string>,
    occurredAtUtc: Option<string>, rawTimeText: Option<string>)

  datatype Field = Volume | Profit | Commission | Swap

  const SCALE: nat := 8

  function Read(f: Fill, field: Field): Option<string> {
    match field
    case Volume => f.volume
    case Profit => f.profit
    case Commission => f.commission
    case Swap => f.swap
  }

  /** The value in units of 10^-8, surplus decimals truncated; zero for what is not a decimal. */
  function At8(text: string): int {
    if IsDecimal(text) then Rescale(FromString(text).value, SCALE, BcmathTruncate).u else 0
  }

  // ---------------------------------------------------------------- sumDecimal

  /** A fill without the field, or with an empty one, does not take part. */
  predicate Carries(f: Fill, field: Field) {
    Read(f, field).Some? && Read(f, field).value != ""
  }

  predicate Summable(fills: seq<Fill>, field: Field) {
    forall f :: f in fills && Carries(f, field) ==> IsDecimal(Read(f, field).value)
  }

  predicate AnyCarries(fills: seq<Fill>, field: Field) {
    exists f :: f in fills && Carries(f, field)
  }

  function FieldUnits(field: Field): Fill -> int {
    f => if Carries(f, field) then At8(Read(f, field).value) else 0
  }

  /** The sum of a field in units of 10^-8: none when no fill carries it, an error when one is malformed. */
  function Sum(fills: seq<Fill>, field: Field): Result<Option<int>, DecimalError> {
    if !Summable(fills, field) then Failure(InvalidDecimal)
    else if !AnyCarries(fills, field) then Success(None)
    else Success(Some(SumBy(fills, FieldUnits(field))))
  }

  function Print8(units: int): string {
    ToString(Fixed(units, SCALE))
  }

  function Printed(r: Result<Option<int>, DecimalError>): Result<Option<string>, DecimalError> {
    match r
    case Failure(e) => Failure(e)
    case Success(None) => Success(None)
    case Success(Some(u)) => Success(Some(Print8(u)))
  }

  /** The accumulator after `fills[..i]`. */
  ghost predicate Summing(fills: seq<Fill>, field: Field, i: nat, acc: Option<Fixed>) {
    && i <= |fills|
    && Summable(fills[..i], field)
    && (acc.Some? <==> AnyCarries(fills[..i], field))
    && (acc.Some? ==> acc.value == Fixed(SumBy(fills[..i], FieldUnits(field)), SCALE))
    && (acc.None? ==> SumBy(fills[..i], FieldUnits(field)) == 0)
  }

  method SumDecimal(fills: seq<Fill>, field: Field) returns (r: Result<Option<string>, DecimalError>)
    ensures r == Printed(Sum(fills, field))
  {
    var acc: Option<Fixed> := None;
    var i := 0;
    hide *;
    SummingStart(fills, field);
    while i < |fills|
      invariant 0 <= i <= |fills| && Summing(fills, field, i, acc)
    {
      var v := Read(fills[i], field);
      if v.None? || v.value == "" {
        SummingSkips(fills, field, i, acc);
        i := i + 1;
        continue;
      }
      var read := FromString(v.value);
      if read.Failure? {
        SummingFails(fills, field, i);
        return Failure(read.error);
      }
      var term := Rescale(read.value, SCALE, BcmathTruncate);
      SummingAdds(fills, field, i, acc, term);
      acc := if acc.None? then Some(term) else Some(Add(acc.value, term));
      i := i + 1;
    }
    SummingEnd(fills, field, acc);
    r := if acc.None? then Success(None) else Success(Some(ToString(Rescale(acc.value, SCALE, BcmathTruncate))));
  }

  lemma SummingStart(fills: seq<Fill>, field: Field)
    ensures Summing(fills, field, 0, None)
  {
  }

  lemma SummingSkips(fills: seq<Fill>, field: Field, i: nat, acc: Option<Fixed>)
    requires i < |fills| && Summing(fills, field, i, acc)
    requires Read(fills[i], field).None? || Read(fills[i], field).value == ""
    ensures Summing(fills, field, i + 1, acc)
  {
    hide IsDecimal;
    assert fills[..i + 1] == fills[..i] + [fills[i]];
    SumByNext(fills, i, FieldUnits(field));
  }

  lemma SummingFails(fills: seq<Fill>, field: Field, i: nat)
    requires i < |fills| && Read(fills[i], field).Some? && Read(fills[i], field).value != ""
    requires FromString(Read(fills[i], field).value).Failure?
    ensures FromString(Read(fills[i], field).value).error == InvalidDecimal
    ensures Printed(Sum(fills, field)) == Failure(InvalidDecimal)
  {
    hide IsDecimal;
    assert fills[i] in fills && Carries(fills[i], field);
  }

  lemma SummingAdds(fills: seq<Fill>, field: Field, i: nat, acc: Option<Fixed>, term: Fixed)
    requires i < |fills| && Summing(fills, field, i, acc)
    requires Read(fills[i], field).Some? && Read(fills[i], field).value != ""
    requires FromString(Read(fills[i], field).value).Success?
    requires term == Rescale(FromString(Read(fills[i], field).value).value, SCALE, BcmathTruncate)
    ensures Summing(fills, field, i + 1, Some(if acc.None? then term else Add(acc.value, term)))
  {
    hide Rescale, ParseNat, Pow10, AllDigits, Unsigned, Add;
    assert fills[..i + 1] == fills[..i] + [fills[i]];
    assert fills[i] in fills[..i + 1] && Carries(fills[i], field);
    SumByNext(fills, i, FieldUnits(field));
    assert term.s == SCALE && term.u == At8(Read(fills[i], field).value);
    if acc.Some? {
      AddAt8(acc.value.u, term.u);
    }
  }

  lemma AddAt8(a: int, b: int)
    ensures Add(Fixed(a, SCALE), Fixed(b, SCALE)) == Fixed(a + b, SCALE)
  {
    assert Pow10(0) == 1;
  }

  lemma SummingEnd(fills: seq<Fill>, field: Field, acc: Option<Fixed>)
    requires Summing(fills, field, |fills|, acc)
    ensures Printed(Sum(fills, field))
         == if acc.None? then Success(None) else Success(Some(ToString(Rescale(acc.value, SCALE, BcmathTruncate))))
  {
    hide IsDecimal, ToString;
    assert fills[..|fills|] == fills;
  }

  // ---------------------------------------------------------------- weightedAverage

  /** Price and volume present, and the volume not literally "0". */
  predicate Weighs(f: Fill) {
    f.price.Some? && f.volume.Some? && f.volume.value != "0"
  }

  predicate Averageable(fills: seq<Fill>) {
    forall f :: f in fills && Weighs(f) ==> IsDecimal(f.price.value) && IsDecimal(f.volume.value)
  }

  /** Price times volume, truncated to units of 10^-8. */
  function ProductUnits(f: Fill): int {
    if Weighs(f) && IsDecimal(f.price.value) && IsDecimal(f.volume.value) then
      Rescale(Mul(FromString(f.price.value).value, FromString(f.volume.value).value), SCALE, BcmathTruncate).u
    else 0
  }

  function WeightUnits(f: Fill): int {
    if Weighs(f) then At8(f.volume.value) else 0
  }

  function Products(): Fill -> int {
    f => ProductUnits(f)
  }

  function Weights(): Fill -> int {
    f => WeightUnits(f)
  }

  /** The average in units of 10^-8; none when the volumes cancel out or are missing. */
  function Average(fills: seq<Fill>): Result<Option<int>, DecimalError> {
    if !Averageable(fills) then Failure(InvalidDecimal)
    else
      var num, den := SumBy(fills, Products()), SumBy(fills, Weights());
      if den == 0 then Success(None)
      else Success(Some(RoundQuotient(num * Pow10(SCALE), den, BcmathTruncate)))
  }

  ghost predicate Averaging(fills: seq<Fill>, i: nat, num: Fixed, den: Fixed) {
    && i <= |fills|
    && Averageable(fills[..i])
    && num == Fixed(SumBy(fills[..i], Products()), SCALE)
    && den == Fixed(SumBy(fills[..i], Weights()), SCALE)
  }

  method WeightedAverage(fills: seq<Fill>) returns (r: Result<Option<string>, DecimalError>)
    ensures r == Printed(Average(fills))
  {
    var num, den := Fixed(0, SCALE), Fixed(0, SCALE);
    var i := 0;
    hide *;
    AveragingStart(fills);
    while i < |fills|
      invariant 0 <= i <= |fills| && Averaging(fills, i, num, den)
    {
      var f := fills[i];
      if f.price.None? || f.volume.None? || f.volume.value == "0" {
        AveragingSkips(fills, i, num, den);
        i := i + 1;
        continue;
      }
      var price := FromString(f.price.value);
      var volume := FromString(f.volume.value);
      if price.Failure? || volume.Failure? {
        AveragingFails(fills, i);
        return Failure(InvalidDecimal);
      }
      var product := Rescale(Mul(price.value, volume.value), SCALE, BcmathTruncate);
      var weight := Rescale(volume.value, SCALE, BcmathTruncate);
      AveragingAdds(fills, i, num, den, product, weight);
      num := Add(num, product);
      den := Add(den, weight);
      i := i + 1;
    }
    AveragingEnd(fills, num, den);
    if den.u == 0 {
      return Success(None);
    }
    var quotient := Div(num, den, SCALE, BcmathTruncate);
    r := Success(Some(ToString(quotient.value)));
  }

  lemma AveragingStart(fills: seq<Fill>)
    ensures Averaging(fills, 0, Fixed(0, SCALE), Fixed(0, SCALE))
  {
  }

  lemma AveragingSkips(fills: seq<Fill>, i: nat, num: Fixed, den: Fixed)
    requires i < |fills| && Averaging(fills, i, num, den)
    requires fills[i].price.None? || fills[i].volume.None? || fills[i].volume.value == "0"
    ensures Averaging(fills, i + 1, num, den)
  {
    hide IsDecimal, Rescale, Mul, FromString;
    assert fills[..i + 1] == fills[..i] + [fills[i]];
    SumByNext(fills, i, Products());
    SumByNext(fills, i, Weights());
  }

  lemma AveragingFails(fills: seq<Fill>, i: nat)
    requires i < |fills| && fills[i].price.Some? && fills[i].volume.Some? && fills[i].volume.value != "0"
    requires FromString(fills[i].price.value).Failure? || FromString(fills[i].volume.value).Failure?
    ensures Printed(Average(fills)) == Failure(InvalidDecimal)
  {
    hide IsDecimal;
    assert fills[i] in fills && Weighs(fills[i]);
  }

  lemma AveragingAdds(fills: seq<Fill>, i: nat, num: Fixed, den: Fixed, product: Fixed, weight: Fixed)
    requires i < |fills| && Averaging(fills, i, num, den)
    requires fills[i].price.Some? && fills[i].volume.Some? && fills[i].volume.value != "0"
    requires FromString(fills[i].price.value).Success? && FromString(fills[i].volume.value).Success?
    requires product == Rescale(Mul(FromString(fills[i].price.value).value, FromString(fills[i].volume.value).value),
                                SCALE, BcmathTruncate)
    requires weight == Rescale(FromString(fills[i].volume.value).value, SCALE, BcmathTruncate)
    ensures Averaging(fills, i + 1, Add(num, product), Add(den, weight))
  {
    AveragingNext(fills, i);
    OneAverageable(fills[i]);
    AddAligned(num, product);
    AddAligned(den, weight);
    hide IsDecimal, Rescale, Mul, FromString, SumBy, Add;
  }

  lemma AveragingNext(fills: seq<Fill>, i: nat)
    requires i < |fills| && Averageable(fills[..i])
    requires Weighs(fills[i]) ==> IsDecimal(fills[i].price.value) && IsDecimal(fills[i].volume.value)
    ensures Averageable(fills[..i + 1])
    ensures SumBy(fills[..i + 1], Products()) == SumBy(fills[..i], Products()) + Products()(fills[i])
    ensures SumBy(fills[..i + 1], Weights()) == SumBy(fills[..i], Weights()) + Weights()(fills[i])
  {
    hide IsDecimal, Rescale, Mul, FromString;
    assert fills[..i + 1] == fills[..i] + [fills[i]];
    SumByNext(fills, i, Products());
    SumByNext(fills, i, Weights());
  }

  lemma OneAverageable(f: Fill)
    requires f.price.Some? && f.volume.Some?
    requires FromString(f.price.value).Success? && FromString(f.volume.value).Success?
    ensures IsDecimal(f.price.value) && IsDecimal(f.volume.value)
  {
    hide IsDecimal;
  }

  lemma AddAligned(a: Fixed, b: Fixed)
    requires a.s == SCALE && b.s == SCALE
    ensures Add(a, b) == Fixed(a.u + b.u, SCALE)
  {
    assert Pow10(0) == 1;
  }

  lemma AveragingEnd(fills: seq<Fill>, num: Fixed, den: Fixed)
    requires Averaging(fills, |fills|, num, den)
    ensures den.u == 0 ==> Printed(Average(fills)) == Success(None)
    ensures den.u != 0 ==>
              && Div(num, den, SCALE, BcmathTruncate).Success?
              && Printed(Average(fills)) == Success(Some(ToString(Div(num, den, SCALE, BcmathTruncate).value)))
  {
    hide IsDecimal, ToString;
    assert fills[..|fills|] == fills;
    if den.u != 0 {
      CancelScale(num.u, den.u);
    }
  }

  /** Both operands at scale 8: the common factor cancels. */
  lemma CancelScale(num: int, den: int)
    requires den != 0
    ensures Div(Fixed(num, SCALE), Fixed(den, SCALE), SCALE, BcmathTruncate)
         == Success(Fixed(RoundQuotient(num * Pow10(SCALE), den, BcmathTruncate), SCALE))
  {
    var c := Pow10(SCALE);
    Pow10Add(SCALE, SCALE);
    var n, d := num * Pow10(SCALE + SCALE), den * c;
    assert n == num * c * c;
    CancelSigned(num * c, den, c, BcmathTruncate);
  }

  // ---------------------------------------------------------------- how far an average can move

  /** Truncation to eight decimals loses nothing: a whole number of 10^-8, however it is written. */
  predicate Lossless(v: Fixed) {
    Cmp(Rescale(v, SCALE, BcmathTruncate), v) == 0
  }

  predicate NonNegativeVolumes(fills: seq<Fill>) {
    forall f :: f in fills && Weighs(f) && IsDecimal(f.volume.value) ==> FromString(f.volume.value).value.u >= 0
  }

  predicate LosslessVolumes(fills: seq<Fill>) {
    forall f :: f in fills && Weighs(f) && IsDecimal(f.volume.value) ==> Lossless(FromString(f.volume.value).value)
  }

  /** Volumes as the bounds need them: not negative, and with nothing to lose. */
  predicate PlainVolumes(fills: seq<Fill>) {
    NonNegativeVolumes(fills) && LosslessVolumes(fills)
  }

  predicate PriceAtMost(f: Fill, bound: Fixed) {
    f.price.Some? && IsDecimal(f.price.value) ==> Cmp(FromString(f.price.value).value, bound) <= 0
  }

  predicate PriceAtLeast(f: Fill, bound: Fixed) {
    f.price.Some? && IsDecimal(f.price.value) ==> Cmp(FromString(f.price.value).value, bound) >= 0
  }

  /** No contributing fill is priced above `bound`. */
  predicate PricesAtMost(fills: seq<Fill>, bound: Fixed) {
    forall f :: f in fills && Weighs(f) ==> PriceAtMost(f, bound)
  }

  predicate PricesAtLeast(fills: seq<Fill>, bound: Fixed) {
    forall f :: f in fills && Weighs(f) ==> PriceAtLeast(f, bound)
  }

  function Contributes(): Fill -> int {
    f => if Weighs(f) then 1 else 0
  }

  /** Every contributing price is a whole number of units of 10^-k. */
  predicate WholePrices(fills: seq<Fill>, k: nat) {
    forall f :: f in fills && Weighs(f) && IsDecimal(f.price.value) ==> FromString(f.price.value).value.s <= k
  }

  function CommonScale(fills: seq<Fill>, k: nat): (m: nat)
    ensures m >= k
    ensures WholePrices(fills, m)
  {
    if fills == [] then k
    else
      var n := |fills| - 1;
      var rest := CommonScale(fills[..n], k);
      assert fills == fills[..n] + [fills[n]];
      if Weighs(fills[n]) && IsDecimal(fills[n].price.value)
      then MaxScale(rest, FromString(fills[n].price.value).value.s) else rest
  }

  /** One truncated product against the bound, in units of 10^-(k+8). */
  lemma ProductBelow(p: Fixed, v: Fixed, bound: Fixed, k: nat)
    requires p.s <= k && bound.s <= k && v.s <= SCALE && v.u >= 0
    requires Cmp(p, bound) <= 0 && Units(bound, k) >= 0
    ensures Rescale(Mul(p, v), SCALE, BcmathTruncate).u * Pow10(k) <= Units(bound, k) * Units(v, SCALE)
  {
    var q := Rescale(Mul(p, v), SCALE, BcmathTruncate).u;
    var P, V, B := Units(p, k), Units(v, SCALE), Units(bound, k);
    CmpExact(p, bound, k);
    ProductTruncated(p, v, k);
    MulOrder(P, B, V);
    if P < 0 {
      MulOrder(0, B, V);
    }
  }

  lemma ProductAbove(p: Fixed, v: Fixed, bound: Fixed, k: nat)
    requires p.s <= k && bound.s <= k && v.s <= SCALE && v.u >= 0
    requires Cmp(p, bound) >= 0
    ensures Rescale(Mul(p, v), SCALE, BcmathTruncate).u * Pow10(k) >= Units(bound, k) * Units(v, SCALE) - Pow10(k)
  {
    var P, V, B := Units(p, k), Units(v, SCALE), Units(bound, k);
    CmpExact(p, bound, k);
    ProductTruncated(p, v, k);
    MulOrder(B, P, V);
  }

  lemma MulOrder(a: int, b: int, c: int)
    requires a <= b && c >= 0
    ensures a * c <= b * c
  {
  }

  /** Truncating the product keeps it within one unit of 10^-8, toward zero, of the exact one. */
  lemma ProductTruncated(p: Fixed, v: Fixed, k: nat)
    requires p.s <= k && v.s <= SCALE && v.u >= 0
    ensures Units(v, SCALE) >= 0
    ensures var q := Rescale(Mul(p, v), SCALE, BcmathTruncate).u * Pow10(k);
            var exact := Units(p, k) * Units(v, SCALE);
            if Units(p, k) >= 0 then q <= exact < q + Pow10(k) else exact <= q <= 0
  {
    hide Pow10, Units, Rescale, Cmp;
    var m := Mul(p, v);
    MulExact(p, v, k, SCALE);
    UnitsSign(v, SCALE);
    UnitsSign(p, k);
    SignOfProduct(v.u, p.u);
    SignOfProduct(Units(v, SCALE), Units(p, k));
    if m.s <= SCALE {
      ShortTruncation(m, k);
    } else {
      LongTruncation(m, k);
    }
  }

  lemma ShortTruncation(m: Fixed, k: nat)
    requires m.s <= SCALE
    ensures Rescale(m, SCALE, BcmathTruncate).u * Pow10(k) == Units(m, k + SCALE)
  {
    UnitsRefine(m, SCALE, k + SCALE);
    assert Pow10(0) == 1;
    hide Pow10;
  }

  lemma LongTruncation(m: Fixed, k: nat)
    requires SCALE < m.s <= k + SCALE
    ensures var q := Rescale(m, SCALE, BcmathTruncate).u * Pow10(k);
            if m.u >= 0 then q <= Units(m, k + SCALE) < q + Pow10(k) else Units(m, k + SCALE) <= q <= 0
  {
    var e := Pow10(m.s - SCALE);
    var c := Pow10(k + SCALE - m.s);
    Pow10Add(m.s - SCALE, k + SCALE - m.s);
    TruncationBound(m, SCALE);
    ScaledTruncation(Rescale(m, SCALE, BcmathTruncate).u, m.u, e, c);
    hide Pow10, Rescale;
  }

  lemma SignOfProduct(a: int, b: int)
    requires a >= 0
    ensures b >= 0 ==> a * b >= 0 && b * a >= 0
    ensures b <= 0 ==> a * b <= 0 && b * a <= 0
    ensures b > 0 && a > 0 ==> a * b > 0
  {
  }

  lemma ScaledTruncation(q: int, u: int, e: int, c: int)
    requires e > 0 && c > 0
    ensures q * e <= u ==> q * (e * c) <= u * c
    ensures u < q * e + e ==> u * c < q * (e * c) + e * c
    ensures u <= q * e ==> u * c <= q * (e * c)
    ensures q * e <= 0 ==> q * (e * c) <= 0
  {
    assert q * (e * c) == (q * e) * c;
    assert (q * e + e) * c == q * (e * c) + e * c;
    ScaleOrder(q * e, u, c);
    ScaleOrder(u, q * e + e, c);
    ScaleOrder(q * e, 0, c);
  }

  lemma Front(fills: seq<Fill>, k: nat)
    requires fills != [] && Averageable(fills) && PlainVolumes(fills) && WholePrices(fills, k)
    ensures var front := fills[..|fills| - 1];
            && Averageable(front) && PlainVolumes(front) && WholePrices(front, k)
            && fills == front + [fills[|fills| - 1]]
  {
    hide IsDecimal, FromString, Lossless;
  }

  /** A lossless volume weighs a price as its eight decimals do. */
  lemma SameProduct(p: Fixed, v: Fixed)
    requires Lossless(v)
    ensures Rescale(Mul(p, v), SCALE, BcmathTruncate)
        == Rescale(Mul(p, Rescale(v, SCALE, BcmathTruncate)), SCALE, BcmathTruncate)
  {
    hide Rescale, Cmp, Units, Pow10;
    var w := Rescale(v, SCALE, BcmathTruncate);
    var k := MaxScale(v.s, SCALE);
    CmpExact(w, v, k);
    MulExact(p, v, p.s, k);
    MulExact(p, w, p.s, k);
    CmpExact(Mul(p, v), Mul(p, w), p.s + k);
    hide Mul;
    CmpExact(Mul(p, w), Mul(p, v), p.s + k);
    RescaleMonotone(Mul(p, v), Mul(p, w), SCALE, BcmathTruncate);
    RescaleMonotone(Mul(p, w), Mul(p, v), SCALE, BcmathTruncate);
  }

  /** Truncation keeps a sign. */
  lemma NonNegativeAt8(v: Fixed)
    requires v.u >= 0
    ensures Rescale(v, SCALE, BcmathTruncate).u >= 0
  {
    if v.s > SCALE {
      hide Pow10;
    } else {
      SignOfProduct(v.u, Pow10(SCALE - v.s));
      hide Pow10;
    }
  }

  lemma LastFill(fills: seq<Fill>, k: nat)
    requires fills != [] && Averageable(fills) && PlainVolumes(fills) && WholePrices(fills, k)
    requires Weighs(fills[|fills| - 1])
    ensures var f := fills[|fills| - 1];
            && FromString(f.price.value).Success? && FromString(f.volume.value).Success?
            && var p, w := FromString(f.price.value).value,
              Rescale(FromString(f.volume.value).value, SCALE, BcmathTruncate);
            && p.s <= k && w.s == SCALE && w.u >= 0
            && ProductUnits(f) == Rescale(Mul(p, w), SCALE, BcmathTruncate).u
            && WeightUnits(f) == Units(w, SCALE)
  {
    hide Rescale, Mul, ParseNat, Cmp, Unsigned;
    var f := fills[|fills| - 1];
    assert f in fills;
    var p, v := FromString(f.price.value).value, FromString(f.volume.value).value;
    SameProduct(p, v);
    NonNegativeAt8(v);
    assert Pow10(0) == 1;
    hide Pow10;
  }

  lemma {:induction false} NumeratorBelow(fills: seq<Fill>, bound: Fixed, k: nat)
    requires Averageable(fills) && PlainVolumes(fills) && PricesAtMost(fills, bound)
    requires WholePrices(fills, k) && k >= bound.s && Units(bound, k) >= 0
    ensures SumBy(fills, Products()) * Pow10(k) <= Units(bound, k) * SumBy(fills, Weights())
    ensures SumBy(fills, Weights()) >= 0
  {
    hide IsDecimal, FromString, Rescale, Mul, Cmp, Units, WholePrices, Averageable, PlainVolumes, ProductUnits,
      WeightUnits;
    if fills != [] {
      var n := |fills| - 1;
      var front, f := fills[..n], fills[n];
      Front(fills, k);
      NumeratorBelow(front, bound, k);
      var num, den := SumBy(front, Products()), SumBy(front, Weights());
      if Weighs(f) {
        LastFill(fills, k);
        assert f in fills;
        var p, v := FromString(f.price.value).value, Rescale(FromString(f.volume.value).value, SCALE, BcmathTruncate);
        PriceBelow(f, bound);
        ProductBelow(p, v, bound, k);
        ProductTruncated(p, v, k);
        Distribute(num, ProductUnits(f), Pow10(k));
        Distribute(den, WeightUnits(f), Units(bound, k));
      } else {
        NoWeight(f);
      }
    }
  }

  lemma NoWeight(f: Fill)
    requires !Weighs(f)
    ensures ProductUnits(f) == 0 && WeightUnits(f) == 0
  {
  }

  lemma PriceBelow(f: Fill, bound: Fixed)
    requires f.price.Some? && FromString(f.price.value).Success?
    ensures PriceAtMost(f, bound) ==> Cmp(FromString(f.price.value).value, bound) <= 0
    ensures PriceAtLeast(f, bound) ==> Cmp(FromString(f.price.value).value, bound) >= 0
  {
  }

  lemma Distribute(a: int, b: int, c: int)
    ensures (a + b) * c == a * c + b * c && c * (a + b) == c * a + c * b
  {
  }

  lemma {:induction false} NumeratorAbove(fills: seq<Fill>, bound: Fixed, k: nat)
    requires Averageable(fills) && PlainVolumes(fills) && PricesAtLeast(fills, bound)
    requires WholePrices(fills, k) && k >= bound.s
    ensures SumBy(fills, Products()) * Pow10(k)
         >= Units(bound, k) * SumBy(fills, Weights()) - SumBy(fills, Contributes()) * Pow10(k)
    ensures SumBy(fills, Weights()) >= 0
  {
    hide IsDecimal, FromString, Rescale, Mul, Cmp, Units, WholePrices, Averageable, PlainVolumes, ProductUnits,
      WeightUnits;
    if fills != [] {
      var n := |fills| - 1;
      var front, f := fills[..n], fills[n];
      Front(fills, k);
      NumeratorAbove(front, bound, k);
      var num, den, count := SumBy(front, Products()), SumBy(front, Weights()), SumBy(front, Contributes());
      if Weighs(f) {
        LastFill(fills, k);
        assert f in fills;
        var p, v := FromString(f.price.value).value, Rescale(FromString(f.volume.value).value, SCALE, BcmathTruncate);
        PriceBelow(f, bound);
        ProductAbove(p, v, bound, k);
        ProductTruncated(p, v, k);
        Distribute(num, ProductUnits(f), Pow10(k));
        Distribute(den, WeightUnits(f), Units(bound, k));
        Distribute(count, 1, Pow10(k));
      } else {
        NoWeight(f);
      }
    }
  }

  /** The truncated quotient against an upper bound of the exact one. */
  lemma QuotientBelow(num: int, den: int, b: int, e: int, c: int)
    requires den > 0 && e > 0 && c > 0 && b >= 0 && num * e <= b * den
    ensures RoundQuotient(num * c, den, BcmathTruncate) * e <= b * c
  {
    hide RoundQuotient;
    var a := RoundQuotient(num * c, den, BcmathTruncate);
    QuotientExact(num * c, den, BcmathTruncate, a);
    QuotientSign(num * c, den, a);
    SignOfProduct(c, num);
    SignOfProduct(b, c);
    if num < 0 {
      NonPositiveQuotient(a, den, e);
    } else {
      CancelBelow(a, num, den, b, e, c);
    }
  }

  lemma NonPositiveQuotient(a: int, den: int, e: int)
    requires den > 0 && e > 0 && a <= 0
    ensures a * e <= 0
  {
  }

  lemma CancelBelow(a: int, num: int, den: int, b: int, e: int, c: int)
    requires den > 0 && e > 0 && c > 0 && num * e <= b * den && a * den <= num * c
    ensures a * e <= b * c
  {
    MulOrder(a * den, num * c, e);
    MulOrder(num * e, b * den, c);
    assert (a * e) * den == (a * den) * e;
    assert (num * c) * e == (num * e) * c;
    assert (b * c) * den == (b * den) * c;
    ScaleOrder(b * c, a * e, den);
  }

  lemma QuotientAbove(num: int, den: int, b: int, n: int, e: int, c: int)
    requires den > 0 && e > 0 && c > 0 && num * e >= b * den - n * e
    ensures (RoundQuotient(num * c, den, BcmathTruncate) + 1) * den * e > b * c * den - n * c * e
  {
    hide RoundQuotient;
    var a := RoundQuotient(num * c, den, BcmathTruncate);
    QuotientExact(num * c, den, BcmathTruncate, a);
    NextMultiple(a, den);
    CancelAbove(a, num, den, b, n, e, c);
  }

  lemma NextMultiple(a: int, den: int)
    ensures (a + 1) * den == a * den + den
  {
  }

  lemma CancelAbove(a: int, num: int, den: int, b: int, n: int, e: int, c: int)
    requires den > 0 && e > 0 && c > 0 && num * e >= b * den - n * e && num * c < (a + 1) * den
    ensures (a + 1) * den * e > b * c * den - n * c * e
  {
    ScaleOrder(num * c, (a + 1) * den, e);
    MulOrder(b * den - n * e, num * e, c);
    assert (num * c) * e == (num * e) * c;
    assert (b * den - n * e) * c == b * c * den - n * c * e;
  }

  /** A scale fine enough for the prices, a bound and the average. */
  lemma FineScale(fills: seq<Fill>, bound: Fixed) returns (k: nat)
    ensures WholePrices(fills, k) && k >= bound.s && k >= SCALE
  {
    k := CommonScale(fills, MaxScale(bound.s, SCALE));
  }

  /** An average never exceeds a bound, itself not negative, on the contributing prices. */
  lemma AverageAtMost(fills: seq<Fill>, bound: Fixed, average: int)
    requires Average(fills) == Success(Some(average))
    requires PlainVolumes(fills) && PricesAtMost(fills, bound) && bound.u >= 0
    ensures Cmp(Fixed(average, SCALE), bound) <= 0
  {
    hide IsDecimal, FromString, SumBy, PlainVolumes, Averageable, WholePrices, PricesAtMost, Units, Cmp, RoundQuotient;
    var k := FineScale(fills, bound);
    UnitsSign(bound, k);
    NumeratorBelow(fills, bound, k);
    var num, den, b := SumBy(fills, Products()), SumBy(fills, Weights()), Units(bound, k);
    QuotientBelow(num, den, b, Pow10(k), Pow10(SCALE));
    AtScale(average, bound, k);
  }

  /** A positive average never exceeds the highest contributing price. */
  lemma PositiveAverageAtMost(fills: seq<Fill>, bound: Fixed, average: int)
    requires Average(fills) == Success(Some(average)) && average > 0
    requires PlainVolumes(fills) && PricesAtMost(fills, bound)
    ensures bound.u >= 0 && Cmp(Fixed(average, SCALE), bound) <= 0
  {
    hide IsDecimal, FromString, SumBy, Average, PlainVolumes;
    if bound.u < 0 {
      var zero := Fixed(0, 0);
      forall f | f in fills && Weighs(f)
        ensures PriceAtMost(f, zero)
      {
        PriceBelowZero(f, bound);
      }
      AverageAtMost(fills, zero, average);
      UnitsSign(Fixed(average, SCALE), SCALE);
      CmpExact(Fixed(average, SCALE), zero, SCALE);
    } else {
      AverageAtMost(fills, bound, average);
    }
  }

  lemma PriceBelowZero(f: Fill, bound: Fixed)
    requires PriceAtMost(f, bound) && bound.u < 0
    ensures PriceAtMost(f, Fixed(0, 0))
  {
    hide Cmp, Units, IsDecimal, ParseNat;
    if f.price.Some? && IsDecimal(f.price.value) {
      var p := FromString(f.price.value).value;
      var k := MaxScale(p.s, bound.s);
      CmpExact(p, bound, k);
      CmpExact(p, Fixed(0, 0), k);
      UnitsSign(bound, k);
      UnitsSign(Fixed(0, 0), k);
      ZeroUnits(k);
    }
  }

  lemma ZeroUnits(k: nat)
    ensures Units(Fixed(0, 0), k) == 0
  {
  }

  /**
   An average misses the lowest contributing price by less than (n / total volume + 1) * 10^-8,
   where n fills contribute: the inequality times the total volume, counted in units of 10^-8 for
   the average and the volumes and in units of 10^-k for the prices.
   */
  lemma AverageAbove(fills: seq<Fill>, bound: Fixed, average: int, k: nat)
    requires Average(fills) == Success(Some(average))
    requires PlainVolumes(fills) && PricesAtLeast(fills, bound)
    requires WholePrices(fills, k) && bound.s <= k
    ensures var volume, n := SumBy(fills, Weights()), SumBy(fills, Contributes());
            && volume > 0
            && (average + 1) * volume * Pow10(k) > Units(bound, k) * Pow10(SCALE) * volume - n * Pow10(SCALE) * Pow10(k)
  {
    hide IsDecimal, FromString, SumBy, PlainVolumes, Averageable, WholePrices, PricesAtLeast, Units, Cmp, RoundQuotient,
      Pow10;
    NumeratorAbove(fills, bound, k);
    var num, den, b := SumBy(fills, Products()), SumBy(fills, Weights()), Units(bound, k);
    QuotientAbove(num, den, b, SumBy(fills, Contributes()), Pow10(k), Pow10(SCALE));
  }

  function Priced(price: Fixed, volume: Fixed): Fill {
    Fill(None, None, Some(In), None, None, Some(ToString(volume)), Some(ToString(price)), None, None, None, None, None)
  }

  lemma PricedAt(price: Fixed, volume: Fixed)
    ensures var f := Priced(price, volume);
            f.price == Some(ToString(price)) && f.volume == Some(ToString(volume))
  {
    hide ToString;
  }

  lemma OnePrice(f: Fill, price: Fixed)
    requires f.price.Some? && FromString(f.price.value) == Success(price) && Cmp(price, price) == 0
    ensures PricesAtMost([f], price)
  {
    hide FromString, Cmp;
  }

  lemma ZeroText()
    ensures ToString(Fixed(0, 0)) == "0"
  {
  }

  /** The average of one fill. */
  lemma OneFill(f: Fill, price: Fixed, volume: Fixed)
    requires f.price == Some(ToString(price)) && f.volume == Some(ToString(volume))
    requires volume != Fixed(0, 0) && Rescale(volume, SCALE, BcmathTruncate).u != 0
    ensures Weighs(f) && FromString(f.price.value) == Success(price) && FromString(f.volume.value) == Success(volume)
    ensures Average([f])
        == Success(Some(RoundQuotient(Rescale(Mul(price, volume), SCALE, BcmathTruncate).u * Pow10(SCALE),
                                                       Rescale(volume, SCALE, BcmathTruncate).u, BcmathTruncate)))
  {
    RoundTrip(price);
    RoundTrip(volume);
    ZeroText();
    hide ToString, Rescale, Mul, RoundQuotient, Pow10;
    if ToString(volume) == "0" {
      PrintInjective(volume, Fixed(0, 0));
    }
    OneWeight(f, Products());
    OneWeight(f, Weights());
  }

  lemma OneWeight(f: Fill, weight: Fill -> int)
    ensures SumBy([f], weight) == weight(f)
  {
    assert [f][..0] == [];
  }

  lemma PowersOfTen()
    ensures Pow10(0) == 1 && Pow10(1) == 10 && Pow10(8) == 100000000 && Pow10(9) == 1000000000
  {
  }

  lemma NegativePriceNumbers()
    ensures var price, volume := Fixed(-15, 9), Fixed(1, 0);
            && Rescale(volume, SCALE, BcmathTruncate).u == 100000000
            && Rescale(Mul(price, volume), SCALE, BcmathTruncate).u == -1
            && RoundQuotient(-1 * Pow10(SCALE), 100000000, BcmathTruncate) == -1
            && Cmp(price, price) == 0 && Cmp(Fixed(-1, SCALE), price) > 0
  {
    PowersOfTen();
    hide Pow10;
  }

  lemma LongVolumeNumbers()
    ensures var price, volume := Fixed(10, 0), Fixed(19, 9);
            && Rescale(volume, SCALE, BcmathTruncate).u == 1
            && Rescale(Mul(price, volume), SCALE, BcmathTruncate).u == 19
            && RoundQuotient(19 * Pow10(SCALE), 1, BcmathTruncate) == 19 * Pow10(SCALE)
            && Cmp(price, price) == 0 && Cmp(Fixed(19 * Pow10(SCALE), SCALE), price) > 0
  {
    PowersOfTen();
    hide Pow10;
  }

  /** The upper bound needs a positive average: below zero, truncation moves a price up. */
  lemma NegativePriceRises()
    ensures var price, volume := Fixed(-15, 9), Fixed(1, 0);
            && PricesAtMost([Priced(price, volume)], price)
            && Average([Priced(price, volume)]) == Success(Some(-1))
            && Cmp(Fixed(-1, SCALE), price) > 0
  {
    var price, volume := Fixed(-15, 9), Fixed(1, 0);
    hide *;
    NegativePriceNumbers();
    assert volume != Fixed(0, 0);
    PricedAt(price, volume);
    OneFill(Priced(price, volume), price, volume);
    OnePrice(Priced(price, volume), price);
  }

  /** And volumes of at most eight decimals: the divisor truncates them, the products do not. */
  lemma LongVolumeRises()
    ensures var price, volume := Fixed(10, 0), Fixed(19, 9);
            && PricesAtMost([Priced(price, volume)], price)
            && Average([Priced(price, volume)]) == Success(Some(19 * Pow10(SCALE)))
            && Cmp(Fixed(19 * Pow10(SCALE), SCALE), price) > 0
  {
    var price, volume := Fixed(10, 0), Fixed(19, 9);
    hide *;
    LongVolumeNumbers();
    assert volume != Fixed(0, 0);
    PricedAt(price, volume);
    OneFill(Priced(price, volume), price, volume);
    OnePrice(Priced(price, volume), price);
  }

  lemma UnitsSign(f: Fixed, k: nat)
    requires f.s <= k
    ensures f.u >= 0 <==> Units(f, k) >= 0
    ensures f.u > 0 <==> Units(f, k) > 0
  {
    ScaleOrder(0, f.u, Pow10(k - f.s));
    ScaleOrder(f.u, 0, Pow10(k - f.s));
  }

  /** Comparing a value in units of 10^-8 with one in units of 10^-k. */
  lemma AtScale(a: int, bound: Fixed, k: nat)
    requires k >= SCALE && bound.s <= k
    ensures Cmp(Fixed(a, SCALE), bound) <= 0 <==> a * Pow10(k) <= Units(bound, k) * Pow10(SCALE)
  {
    hide Pow10, Cmp, Units;
    var f := Fixed(a, SCALE);
    CmpExact(f, bound, k);
    ScaleOrder(Units(bound, k), Units(f, k), Pow10(SCALE));
    FinerUnits(a, k);
  }

  lemma FinerUnits(a: int, k: nat)
    requires k >= SCALE
    ensures Units(Fixed(a, SCALE), k) * Pow10(SCALE) == a * Pow10(k)
  {
    Pow10Add(k - SCALE, SCALE);
    hide Pow10;
    Associate(a, Pow10(k - SCALE), Pow10(SCALE));
  }

  // ---------------------------------------------------------------- order does not matter

  lemma SamePermuted(a: seq<Fill>, b: seq<Fill>)
    requires multiset(a) == multiset(b)
    ensures forall f :: f in a <==> f in b
  {
    forall f
      ensures f in a <==> f in b
    {
      assert f in a <==> f in multiset(a);
      assert f in b <==> f in multiset(b);
    }
  }

  lemma SumPermuted(a: seq<Fill>, b: seq<Fill>, field: Field)
    requires multiset(a) == multiset(b)
    ensures Sum(a, field) == Sum(b, field)
  {
    hide IsDecimal;
    SamePermuted(a, b);
    SumByPermutation(a, b, FieldUnits(field));
  }

  lemma AveragePermuted(a: seq<Fill>, b: seq<Fill>)
    requires multiset(a) == multiset(b)
    ensures Average(a) == Average(b)
  {
    hide IsDecimal, RoundQuotient, Pow10;
    SamePermuted(a, b);
    SumByPermutation(a, b, Products());
    SumByPermutation(a, b, Weights());
  }
}
