/**
 Which volumes an average may be trusted with: truncation never lifts an average over the prices it
 averages exactly when every contributing volume is a whole number of 10^-8.
 */
module VolumeSharpness {
  import opened Wrappers
  import opened Digits
  import opened Decimal
  import opened Sequences
  import opened FillArithmetic

  /** The same fills at other prices. */
  predicate Repriced(fills: seq<Fill>, others: seq<Fill>) {
    && |others| == |fills|
    && forall i :: 0 <= i < |fills| ==>
         others[i].volume == fills[i].volume && (others[i].price.Some? <==> fills[i].price.Some?)
  }

  predicate NonNegativePrices(fills: seq<Fill>) {
    forall f :: f in fills && Weighs(f) ==> PriceAtLeast(f, Fixed(0, 0))
  }

  /** At no non-negative prices does the average exceed a bound on them. */
  ghost predicate BoundHolds(fills: seq<Fill>) {
    forall others: seq<Fill>, bound: Fixed, average: int ::
      Repriced(fills, others) && NonNegativePrices(others) && PricesAtMost(others, bound) && bound.u >= 0
      && Average(others) == Success(Some(average)) ==>
        Cmp(Fixed(average, SCALE), bound) <= 0
  }

  predicate DecimalVolumes(fills: seq<Fill>) {
    forall f :: f in fills && Weighs(f) ==> IsDecimal(f.volume.value)
  }

  lemma RepricedVolumes(fills: seq<Fill>, others: seq<Fill>)
    requires Repriced(fills, others) && PlainVolumes(fills)
    ensures PlainVolumes(others)
  {
    hide IsDecimal, Lossless;
    forall f | f in others && Weighs(f) && IsDecimal(f.volume.value)
      ensures FromString(f.volume.value).value.u >= 0 && Lossless(FromString(f.volume.value).value)
    {
      var i :| 0 <= i < |others| && others[i] == f;
      assert fills[i] in fills && Weighs(fills[i]);
    }
  }

  lemma LosslessSuffices(fills: seq<Fill>)
    requires PlainVolumes(fills)
    ensures BoundHolds(fills)
  {
    hide Average, PlainVolumes, PricesAtMost, NonNegativePrices, Cmp, Repriced;
    forall others: seq<Fill>, bound: Fixed, average: int |
      Repriced(fills, others) && NonNegativePrices(others) && PricesAtMost(others, bound) && bound.u >= 0
      && Average(others) == Success(Some(average))
      ensures Cmp(Fixed(average, SCALE), bound) <= 0
    {
      RepricedVolumes(fills, others);
      AverageAtMost(others, bound, average);
    }
  }

  // ---------------------------------------------------------------- one price for all

  function At(f: Fill, m: nat): Fill {
    if f.price.None? then f else f.(price := Some(ToString(Fixed(Pow10(m), 0))))
  }

  /** Every priced fill at 10^m. */
  function Uniform(fills: seq<Fill>, m: nat): (others: seq<Fill>)
    ensures |others| == |fills|
  {
    if fills == [] then [] else Uniform(fills[..|fills| - 1], m) + [At(fills[|fills| - 1], m)]
  }

  lemma {:induction false} UniformMembers(fills: seq<Fill>, m: nat)
    ensures Repriced(fills, Uniform(fills, m))
    ensures forall f :: f in Uniform(fills, m) ==> exists g :: g in fills && f == At(g, m)
  {
    hide ToString, Pow10;
    if fills != [] {
      var n := |fills| - 1;
      UniformMembers(fills[..n], m);
      assert fills == fills[..n] + [fills[n]];
    }
  }

  lemma AtParses(f: Fill, m: nat)
    requires f.price.Some?
    ensures FromString(At(f, m).price.value) == Success(Fixed(Pow10(m), 0)) && IsDecimal(At(f, m).price.value)
    ensures At(f, m).volume == f.volume && (Weighs(At(f, m)) <==> Weighs(f))
  {
    hide ToString, Pow10, IsDecimal;
    RoundTrip(Fixed(Pow10(m), 0));
  }

  lemma OwnBound(p: Fixed)
    requires p.u >= 0
    ensures Cmp(p, p) == 0 && Cmp(p, Fixed(0, 0)) >= 0
  {
    CmpExact(p, p, p.s);
    CmpExact(p, Fixed(0, 0), p.s);
    SignOfProduct(p.u, Pow10(0));
    hide Cmp;
    ZeroUnits(p.s);
  }

  lemma UniformPrices(fills: seq<Fill>, m: nat)
    requires DecimalVolumes(fills)
    ensures var others := Uniform(fills, m);
            Averageable(others) && NonNegativePrices(others) && PricesAtMost(others, Fixed(Pow10(m), 0))
  {
    hide ToString, Pow10, FromString, IsDecimal, Cmp;
    UniformMembers(fills, m);
    OwnBound(Fixed(Pow10(m), 0));
    forall f | f in Uniform(fills, m) && Weighs(f)
      ensures IsDecimal(f.price.value) && IsDecimal(f.volume.value)
      ensures PriceAtLeast(f, Fixed(0, 0)) && PriceAtMost(f, Fixed(Pow10(m), 0))
    {
      var g :| g in fills && f == At(g, m);
      AtParses(g, m);
    }
  }

  /** A contributing volume in units of 10^-m, none of it lost. */
  function Volumes(m: nat): Fill -> int {
    (f: Fill) =>
      if Weighs(f) && IsDecimal(f.volume.value) && FromString(f.volume.value).value.s <= m
      then Units(FromString(f.volume.value).value, m) else 0
  }

  predicate WholeVolumes(fills: seq<Fill>, m: nat) {
    forall f :: f in fills && Weighs(f) && IsDecimal(f.volume.value) ==> FromString(f.volume.value).value.s <= m
  }

  function VolumeScale(fills: seq<Fill>): (m: nat)
    ensures m >= SCALE && WholeVolumes(fills, m)
  {
    if fills == [] then SCALE
    else
      var n := |fills| - 1;
      var rest := VolumeScale(fills[..n]);
      assert fills == fills[..n] + [fills[n]];
      if Weighs(fills[n]) && IsDecimal(fills[n].volume.value)
      then MaxScale(rest, FromString(fills[n].volume.value).value.s) else rest
  }

  /** At 10^m the product is whole, so nothing of it is truncated. */
  lemma WholeProduct(v: Fixed, m: nat)
    requires v.s <= m
    ensures Rescale(Mul(Fixed(Pow10(m), 0), v), SCALE, BcmathTruncate).u == Units(v, m) * Pow10(SCALE)
  {
    hide Pow10, Rescale;
    Pow10Add(m - v.s, v.s);
    Commute(Pow10(m), v.u);
    Associate(v.u, Pow10(m - v.s), Pow10(v.s));
    SameValue(Mul(Fixed(Pow10(m), 0), v), Fixed(Units(v, m), 0), v.s);
  }

  lemma Commute(a: int, b: int)
    ensures a * b == b * a
  {
  }

  lemma SameValue(product: Fixed, whole: Fixed, s: nat)
    requires product.s == s && whole.s == 0 && product.u == whole.u * Pow10(s)
    ensures Rescale(product, SCALE, BcmathTruncate).u == whole.u * Pow10(SCALE)
  {
    assert Pow10(0) == 1;
    hide Pow10, Rescale;
    CmpExact(product, whole, s);
    CmpExact(whole, product, s);
    RescaleMonotone(product, whole, SCALE, BcmathTruncate);
    RescaleMonotone(whole, product, SCALE, BcmathTruncate);
    WholeRescaled(whole);
  }

  lemma WholeRescaled(whole: Fixed)
    requires whole.s == 0
    ensures Rescale(whole, SCALE, BcmathTruncate).u == whole.u * Pow10(SCALE)
  {
    hide Pow10;
  }

  lemma {:induction false} UniformSums(fills: seq<Fill>, m: nat)
    requires DecimalVolumes(fills) && WholeVolumes(fills, m)
    ensures SumBy(Uniform(fills, m), Weights()) == SumBy(fills, Weights())
    ensures SumBy(Uniform(fills, m), Products()) == SumBy(fills, Volumes(m)) * Pow10(SCALE)
  {
    hide ToString, Pow10, FromString, IsDecimal, Rescale, Mul, Units;
    if fills != [] {
      var n := |fills| - 1;
      var front, f := fills[..n], fills[n];
      assert fills == front + [f];
      UniformSums(front, m);
      LastUniform(Uniform(front, m), At(f, m), Weights());
      LastUniform(Uniform(front, m), At(f, m), Products());
      OneUniform(f, m);
      Distribute(SumBy(front, Volumes(m)), Volumes(m)(f), Pow10(SCALE));
    }
  }

  lemma LastUniform(front: seq<Fill>, f: Fill, weight: Fill -> int)
    ensures SumBy(front + [f], weight) == SumBy(front, weight) + weight(f)
  {
    assert (front + [f])[..|front|] == front;
  }

  lemma OneUniform(f: Fill, m: nat)
    requires Weighs(f) ==> IsDecimal(f.volume.value) && FromString(f.volume.value).value.s <= m
    ensures Weights()(At(f, m)) == Weights()(f)
    ensures Products()(At(f, m)) == Volumes(m)(f) * Pow10(SCALE)
  {
    hide ToString, Pow10, FromString, IsDecimal, Rescale, Mul, Units, At8;
    if Weighs(f) {
      AtParses(f, m);
      DecimalParses(f.volume.value);
      WholeProduct(FromString(f.volume.value).value, m);
    } else {
      NoWeight(f);
      UnweighedAt(f, m);
    }
  }

  lemma DecimalParses(text: string)
    requires IsDecimal(text)
    ensures FromString(text).Success?
  {
    hide IsDecimal;
  }

  lemma UnweighedAt(f: Fill, m: nat)
    requires !Weighs(f)
    ensures !Weighs(At(f, m))
  {
    hide ToString, Pow10;
  }

  // ---------------------------------------------------------------- what truncating volumes leaves out

  /** A non-negative volume is never below its eight decimals, and above them unless it loses nothing. */
  lemma VolumeAbove(v: Fixed, m: nat)
    requires v.u >= 0 && v.s <= m && SCALE <= m
    ensures Rescale(v, SCALE, BcmathTruncate).u * Pow10(m - SCALE) <= Units(v, m)
    ensures !Lossless(v) ==> Rescale(v, SCALE, BcmathTruncate).u * Pow10(m - SCALE) + 1 <= Units(v, m)
  {
    hide Pow10, Rescale, Cmp;
    var w := Rescale(v, SCALE, BcmathTruncate);
    CmpExact(w, v, m);
    if v.s <= SCALE {
      Extends(v, m);
    } else {
      TruncationBound(v, SCALE);
      Pow10Add(v.s - SCALE, m - v.s);
      Scaled(w.u, v.u, Pow10(v.s - SCALE), Pow10(m - v.s));
    }
  }

  lemma Extends(v: Fixed, m: nat)
    requires v.s <= SCALE <= m
    ensures Units(Rescale(v, SCALE, BcmathTruncate), m) == Units(v, m)
  {
    UnitsRefine(v, SCALE, m);
    assert Pow10(0) == 1;
    hide Pow10;
  }

  lemma Scaled(q: int, u: int, e: int, c: int)
    requires e > 0 && c > 0 && q * e <= u
    ensures q * (e * c) <= u * c
  {
    ScaledTruncation(q, u, e, c);
  }

  lemma {:induction false} VolumesAbove(fills: seq<Fill>, m: nat)
    requires DecimalVolumes(fills) && NonNegativeVolumes(fills) && WholeVolumes(fills, m) && m >= SCALE
    ensures SumBy(fills, Weights()) * Pow10(m - SCALE) <= SumBy(fills, Volumes(m))
    ensures !LosslessVolumes(fills) ==> SumBy(fills, Weights()) * Pow10(m - SCALE) + 1 <= SumBy(fills, Volumes(m))
  {
    hide ToString, Pow10, FromString, IsDecimal, Rescale, Units, Lossless;
    if fills != [] {
      var n := |fills| - 1;
      var front, f := fills[..n], fills[n];
      assert fills == front + [f];
      VolumesAbove(front, m);
      Distribute(SumBy(front, Weights()), WeightUnits(f), Pow10(m - SCALE));
      if Weighs(f) {
        DecimalParses(f.volume.value);
        VolumeAbove(FromString(f.volume.value).value, m);
      } else {
        NoWeight(f);
      }
    }
  }

  /** Finer units of the same volumes. */
  lemma {:induction false} VolumesRefine(fills: seq<Fill>, m: nat, j: nat)
    requires DecimalVolumes(fills) && WholeVolumes(fills, m)
    ensures WholeVolumes(fills, m + j) && SumBy(fills, Volumes(m + j)) == SumBy(fills, Volumes(m)) * Pow10(j)
  {
    hide ToString, Pow10, FromString, IsDecimal, Units;
    if fills != [] {
      var n := |fills| - 1;
      var front, f := fills[..n], fills[n];
      assert fills == front + [f];
      VolumesRefine(front, m, j);
      Distribute(SumBy(front, Volumes(m)), Volumes(m)(f), Pow10(j));
      if Weighs(f) {
        DecimalParses(f.volume.value);
        UnitsRefine(FromString(f.volume.value).value, m, m + j);
      }
    }
  }

  lemma {:induction false} BelowPower(n: nat)
    ensures n < Pow10(n)
  {
    if n > 0 {
      BelowPower(n - 1);
    }
  }

  /** The gap, blown up by enough decimals, is worth a whole unit of the average. */
  lemma GapShows(d: int, n: int, m: nat, j: nat)
    requires d > 0 && m >= SCALE && d * Pow10(m - SCALE) + 1 <= n && d <= Pow10(j)
    ensures RoundQuotient(n * Pow10(j) * Pow10(SCALE) * Pow10(SCALE), d, BcmathTruncate) >= Pow10(m + j + SCALE) + 1
  {
    hide Pow10, RoundQuotient;
    var e, c, p := Pow10(m - SCALE), Pow10(SCALE), Pow10(j);
    Pow10Add(m - SCALE, SCALE);
    Pow10Add(m, j);
    Pow10Add(m + j, SCALE);
    var q := e * c * p * c;
    assert q == Pow10(m + j + SCALE);
    Blown(d, n, e, c, p);
    RoundMonotone((q + 1) * d, n * p * c * c, d, BcmathTruncate);
    ExactQuotient(q + 1, d, BcmathTruncate);
  }

  lemma Blown(d: int, n: int, e: int, c: int, p: int)
    requires d > 0 && e > 0 && c > 0 && p > 0 && d * e + 1 <= n && d <= p
    ensures (e * c * p * c + 1) * d <= n * p * c * c
  {
    var x := p * (c * c);
    SignOfProduct(c, c);
    SignOfProduct(p, c * c);
    MulOrder(1, c, c);
    MulOrder(1, c * c, p);
    MulOrder(d * e + 1, n, x);
    Distribute(d * e, 1, x);
    Regroup(e, c, p);
    Distribute(e * x, 1, d);
    Associate(d, e, x);
    Associate(n * p, c, c);
    Associate(n, p, c * c);
  }

  lemma Regroup(e: int, c: int, p: int)
    ensures e * c * p * c == e * (p * (c * c))
  {
    Associate(e, c, p);
    Associate(e, c * p, c);
    Associate(p, c, c);
  }

  /** With a volume that loses something, some uniform price is exceeded by its own average. */
  lemma LossyFails(fills: seq<Fill>)
    requires DecimalVolumes(fills) && NonNegativeVolumes(fills) && SumBy(fills, Weights()) > 0
    requires !LosslessVolumes(fills)
    ensures !BoundHolds(fills)
  {
    hide Pow10, RoundQuotient, SumBy, Cmp, Averageable, NonNegativePrices, PricesAtMost, Repriced,
      DecimalVolumes, NonNegativeVolumes, LosslessVolumes, WholeVolumes;
    var m := VolumeScale(fills);
    var d := SumBy(fills, Weights());
    BelowPower(d);
    var k := m + d;
    VolumesAbove(fills, m);
    VolumesRefine(fills, m, d);
    UniformSums(fills, k);
    UniformPrices(fills, k);
    UniformMembers(fills, k);
    GapShows(d, SumBy(fills, Volumes(m)), m, d);
    var others := Uniform(fills, k);
    var average := RoundQuotient(SumBy(others, Products()) * Pow10(SCALE), d, BcmathTruncate);
    assert Average(others) == Success(Some(average));
    Exceeds(average, k);
  }

  lemma Exceeds(average: int, k: nat)
    requires average > Pow10(k + SCALE)
    ensures Cmp(Fixed(average, SCALE), Fixed(Pow10(k), 0)) > 0
  {
    hide Pow10, Cmp;
    var bound := Fixed(Pow10(k), 0);
    CmpExact(Fixed(average, SCALE), bound, SCALE);
    Pow10Add(k, SCALE);
    OneUnit(average);
  }

  lemma OneUnit(average: int)
    ensures Units(Fixed(average, SCALE), SCALE) == average
  {
    assert Pow10(0) == 1;
  }

  /** The average respects every non-negative bound on non-negative prices exactly when no contributing volume
     loses anything. */
  lemma BoundHoldsExactly(fills: seq<Fill>)
    requires DecimalVolumes(fills) && NonNegativeVolumes(fills) && SumBy(fills, Weights()) > 0
    ensures BoundHolds(fills) <==> LosslessVolumes(fills)
  {
    hide BoundHolds, LosslessVolumes;
    if LosslessVolumes(fills) {
      LosslessSuffices(fills);
    } else {
      LossyFails(fills);
    }
  }
}
