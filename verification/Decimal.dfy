/**
 First-party fixed point: an unbounded unscaled integer and a scale.

 Every statement about values is made in whole units: `Units(f, k)` is the value of `f`
 counted in units of 10^-k, an exact integer for every k at or above the scale of `f`.
 */
module Decimal {
  import opened Wrappers
  import opened Digits
  import opened Text

  datatype RoundingMode = BcmathTruncate | HalfEven

  datatype Fixed = Fixed(u: int, s: nat)

  datatype DecimalError = InvalidDecimal | ZeroDivision

  function Abs(n: int): (r: nat)
    ensures r == n || r == -n
  {
    if n < 0 then -n else n
  }

  function MaxScale(a: nat, b: nat): (m: nat)
    ensures m >= a && m >= b && (m == a || m == b)
  {
    if a < b then b else a
  }

  // ---------------------------------------------------------------- strings

  function Unsigned(str: string): string {
    if str != "" && str[0] == '-' then str[1..] else str
  }

  /** `/^-?\d+(\.\d+)?$/` */
  predicate IsDecimal(str: string) {
    var body := Unsigned(str);
    var dot := IndexOf(body, '.');
    && dot > 0
    && AllDigits(body[..dot])
    && (dot < |body| ==> dot + 1 < |body| && AllDigits(body[dot + 1..]))
  }

  function FromString(str: string): Result<Fixed, DecimalError> {
    if !IsDecimal(str) then
      Failure(InvalidDecimal)
    else
      var body := Unsigned(str);
      var dot := IndexOf(body, '.');
      var frac := if dot < |body| then body[dot + 1..] else "";
      var magnitude: int := ParseNat(body[..dot] + frac);
      Success(Fixed(if str[0] == '-' then -magnitude else magnitude, |frac|))
  }

  /** The digits of |u|, padded so that at least one of them precedes the point. */
  function AbsDigits(f: Fixed): (d: string)
    ensures AllDigits(d) && |d| > f.s
  {
    PadStart(PrintNat(Abs(f.u)), f.s + 1)
  }

  function Magnitude(f: Fixed): string {
    var digits := AbsDigits(f);
    if f.s == 0 then digits
    else digits[..|digits| - f.s] + "." + digits[|digits| - f.s..]
  }

  function ToString(f: Fixed): string {
    (if f.u < 0 then "-" else "") + Magnitude(f)
  }

  function Written(whole: string, frac: string): string {
    if frac == "" then whole else whole + "." + frac
  }

  lemma SplitWritten(whole: string, frac: string)
    requires |whole| > 0 && AllDigits(whole) && AllDigits(frac)
    ensures var body := Written(whole, frac);
            && IsDigit(body[0])
            && IndexOf(body, '.') == |whole| <= |body|
            && body[..|whole|] == whole
            && (|whole| < |body| <==> frac != "")
            && (frac != "" ==> body[|whole| + 1..] == frac)
  {
    var body := Written(whole, frac);
    assert forall k :: 0 <= k < |whole| ==> body[k] == whole[k];
    IndexOfUnique(body, '.', |whole|);
  }

  /** What the parser makes of digits, an optional point with digits after it, and a sign. */
  lemma ParseWritten(negative: bool, whole: string, frac: string, str: string)
    requires |whole| > 0 && AllDigits(whole) && AllDigits(frac)
    requires str == (if negative then "-" else "") + Written(whole, frac)
    ensures var magnitude: int := ParseNat(whole + frac);
            FromString(str) == Success(Fixed(if negative then -magnitude else magnitude, |frac|))
  {
    WrittenIsDecimal(negative, whole, frac, str);
    SplitWritten(whole, frac);
    hide IsDecimal, Unsigned, Written, AllDigits, ParseNat;
    assert (if frac == "" then "" else frac) == frac;
  }

  lemma WrittenIsDecimal(negative: bool, whole: string, frac: string, str: string)
    requires |whole| > 0 && AllDigits(whole) && AllDigits(frac)
    requires str == (if negative then "-" else "") + Written(whole, frac)
    ensures str != "" && (str[0] == '-' <==> negative)
    ensures Unsigned(str) == Written(whole, frac) && IsDecimal(str)
  {
    SplitWritten(whole, frac);
    hide Written, IndexOf;
    var body := Written(whole, frac);
    assert str[0] == '-' <==> negative;
    assert Unsigned(str) == body;
  }

  /** Printing then parsing gives back the unscaled value and the scale. */
  lemma RoundTrip(f: Fixed)
    ensures FromString(ToString(f)) == Success(f)
  {
    hide FromString, ToString, Written, PadStart, PrintNat, ParseNat, IsDigit, Pow10, AllDigits;
    var d := AbsDigits(f);
    var p := |d| - f.s;
    PrintedWritten(f, d, p);
    assert d[..p] + d[p..] == d;
    ParseWritten(f.u < 0, d[..p], d[p..], ToString(f));
    ParsePadded(PrintNat(Abs(f.u)), f.s + 1);
    ParsePrint(Abs(f.u));
  }

  lemma PrintedWritten(f: Fixed, d: string, p: nat)
    requires d == AbsDigits(f) && p == |d| - f.s
    ensures AllDigits(d[..p]) && AllDigits(d[p..])
    ensures ToString(f) == (if f.u < 0 then "-" else "") + Written(d[..p], d[p..])
  {
    hide AbsDigits;
  }

  lemma PrintInjective(f: Fixed, g: Fixed)
    requires ToString(f) == ToString(g)
    ensures f == g
  {
    RoundTrip(f);
    RoundTrip(g);
  }

  /** One digit prints as itself. */
  lemma OneDigitText(d: int)
    requires 0 <= d < 10
    ensures ToString(Fixed(d, 0)) == [DigitChar(d)]
    ensures d > 0 ==> ToString(Fixed(-d, 0)) == "-" + [DigitChar(d)]
  {
    assert PrintNat(d) == [DigitChar(d)];
  }

  // ---------------------------------------------------------------- value in units

  /** The value of `f` counted in units of 10^-k. */
  function Units(f: Fixed, k: nat): int
    requires f.s <= k
  {
    f.u * Pow10(k - f.s)
  }

  lemma UnitsRefine(f: Fixed, k: nat, m: nat)
    requires f.s <= k <= m
    ensures Units(f, m) == Units(f, k) * Pow10(m - k)
  {
    Pow10Add(k - f.s, m - k);
  }

  function Add(a: Fixed, b: Fixed): Fixed {
    var s := MaxScale(a.s, b.s);
    Fixed(Units(a, s) + Units(b, s), s)
  }

  function Sub(a: Fixed, b: Fixed): Fixed {
    var s := MaxScale(a.s, b.s);
    Fixed(Units(a, s) - Units(b, s), s)
  }

  function Mul(a: Fixed, b: Fixed): Fixed {
    Fixed(a.u * b.u, a.s + b.s)
  }

  function Cmp(a: Fixed, b: Fixed): int {
    var s := MaxScale(a.s, b.s);
    var x, y := Units(a, s), Units(b, s);
    if x < y then -1 else if x > y then 1 else 0
  }

  lemma AddExact(a: Fixed, b: Fixed, k: nat)
    requires a.s <= k && b.s <= k
    ensures Add(a, b).s <= k
    ensures Units(Add(a, b), k) == Units(a, k) + Units(b, k)
  {
    var s := MaxScale(a.s, b.s);
    UnitsRefine(a, s, k);
    UnitsRefine(b, s, k);
  }

  lemma SubExact(a: Fixed, b: Fixed, k: nat)
    requires a.s <= k && b.s <= k
    ensures Sub(a, b).s <= k
    ensures Units(Sub(a, b), k) == Units(a, k) - Units(b, k)
  {
    var s := MaxScale(a.s, b.s);
    UnitsRefine(a, s, k);
    UnitsRefine(b, s, k);
  }

  lemma MulExact(a: Fixed, b: Fixed, j: nat, k: nat)
    requires a.s <= j && b.s <= k
    ensures Mul(a, b).s <= j + k
    ensures Units(Mul(a, b), j + k) == Units(a, j) * Units(b, k)
  {
    var p, q := Pow10(j - a.s), Pow10(k - b.s);
    Pow10Add(j - a.s, k - b.s);
    assert (a.u * b.u) * (p * q) == (a.u * p) * (b.u * q);
  }

  /** `cmp` is the order of the values, at whatever common scale they are counted. */
  lemma CmpExact(a: Fixed, b: Fixed, k: nat)
    requires a.s <= k && b.s <= k
    ensures Cmp(a, b) < 0 <==> Units(a, k) < Units(b, k)
    ensures Cmp(a, b) > 0 <==> Units(a, k) > Units(b, k)
    ensures Cmp(a, b) == 0 <==> Units(a, k) == Units(b, k)
  {
    var s := MaxScale(a.s, b.s);
    UnitsRefine(a, s, k);
    UnitsRefine(b, s, k);
    ScaleOrder(Units(a, s), Units(b, s), Pow10(k - s));
    ScaleOrder(Units(b, s), Units(a, s), Pow10(k - s));
  }

  lemma ScaleOrder(x: int, y: int, c: int)
    requires c > 0
    ensures x < y <==> x * c < y * c
    ensures x == y <==> x * c == y * c
  {
    if x < y {
      assert (y - x) * c > 0;
    } else if x > y {
      assert (x - y) * c > 0;
    }
  }

  // ---------------------------------------------------------------- rounding

  /** The shared rounding step: quotient of two magnitudes, bumped in half-even mode. */
  function RoundMagnitude(n: nat, d: nat, mode: RoundingMode): nat
    requires d > 0
  {
    var q, r := n / d, n % d;
    if mode == HalfEven && (r * 2 > d || (r * 2 == d && q % 2 == 1)) then q + 1 else q
  }

  function RoundQuotient(n: int, d: int, mode: RoundingMode): int
    requires d != 0
  {
    var q: int := RoundMagnitude(Abs(n), Abs(d), mode);
    if (n < 0) != (d < 0) then -q else q
  }

  function Div(a: Fixed, b: Fixed, targetScale: nat, mode: RoundingMode): Result<Fixed, DecimalError> {
    if b.u == 0 then
      Failure(ZeroDivision)
    else
      var n := a.u * Pow10(targetScale + b.s);
      var d := b.u * Pow10(a.s);
      assert d != 0 by { NonZeroProduct(b.u, Pow10(a.s)); }
      Success(Fixed(RoundQuotient(n, d, mode), targetScale))
  }

  function Rescale(f: Fixed, target: nat, mode: RoundingMode): (r: Fixed)
    ensures r.s == target
  {
    if target == f.s then f
    else if target > f.s then Fixed(Units(f, target), target)
    else Fixed(RoundQuotient(f.u, Pow10(f.s - target), mode), target)
  }

  lemma NonZeroProduct(x: int, y: int)
    requires x != 0 && y != 0
    ensures x * y != 0
  {
  }

  /**
   `q` is n/d rounded as the mode says: toward zero, or to the nearest integer with ties to
   even (roundTiesToEven, section 4.3.1 of IEEE 754-2008).
   */
  predicate RoundsTo(n: int, d: int, mode: RoundingMode, q: int)
    requires d > 0
  {
    RoundsBy(n, d, mode, q, q * d)
  }

  /** The same, with the product q * d at hand. */
  predicate RoundsBy(n: int, d: int, mode: RoundingMode, q: int, product: int) {
    match mode
    case BcmathTruncate =>
      if n >= 0 then product <= n < product + d else product - d < n <= product
    case HalfEven =>
      2 * Abs(n - product) <= d && (2 * Abs(n - product) == d ==> q % 2 == 0)
  }

  lemma EuclideanStep(n: nat, d: nat)
    requires d > 0
    ensures n == (n / d) * d + n % d && 0 <= n % d < d
  {
  }

  lemma MagnitudeRounds(n: nat, d: nat, mode: RoundingMode)
    requires d > 0
    ensures RoundsTo(n, d, mode, RoundMagnitude(n, d, mode))
  {
    EuclideanStep(n, d);
    var q := n / d;
    assert (q + 1) * d == q * d + d;
  }

  lemma NegatedRounds(n: int, d: int, mode: RoundingMode, q: int)
    requires d > 0 && RoundsTo(n, d, mode, q)
    ensures RoundsTo(-n, d, mode, -q)
  {
    NegatedProduct(q, d);
    if n == 0 {
      SmallMultiple(q, d);
    }
    NegatedBy(n, d, mode, q, q * d);
    hide RoundsBy;
  }

  lemma SmallMultiple(q: int, d: int)
    requires d > 0
    ensures -d < q * d < d ==> q * d == 0
  {
    ScaleOrder(q, 1, d);
    ScaleOrder(-1, q, d);
  }

  lemma NegatedProduct(q: int, d: int)
    ensures (-q) * d == -(q * d)
  {
  }

  lemma NegatedBy(n: int, d: int, mode: RoundingMode, q: int, product: int)
    requires RoundsBy(n, d, mode, q, product) && d > 0 && (n == 0 ==> product == 0)
    ensures RoundsBy(-n, d, mode, -q, -product)
  {
  }

  lemma RoundsToUnique(n: int, d: int, mode: RoundingMode, q: int, p: int)
    requires d > 0 && RoundsTo(n, d, mode, q) && RoundsTo(n, d, mode, p)
    ensures q == p
  {
    if q != p {
      var lo, hi := if q < p then q else p, if q < p then p else q;
      SpreadBound(lo, hi, d);
      if mode == HalfEven {
        assert hi * d - lo * d <= d;
        SpreadTight(lo, hi, d);
      }
    }
  }

  lemma SpreadBound(lo: int, hi: int, d: int)
    requires lo < hi && d > 0
    ensures hi * d - lo * d >= d
  {
    ScaleOrder(hi, lo + 1, d);
    AddOne(lo, d);
  }

  lemma AddOne(x: int, d: int)
    ensures (x + 1) * d == x * d + d
  {
  }

  lemma SpreadTight(lo: int, hi: int, d: int)
    requires lo < hi && d > 0 && hi * d - lo * d <= d
    ensures hi == lo + 1
  {
    var gap := hi - lo - 1;
    assert gap * d == hi * d - lo * d - d;
    ScaleOrder(0, gap, d);
  }

  /** Rounding is exactly the mathematical rounding: one integer qualifies, and it is the one returned. */
  lemma QuotientExact(n: int, d: int, mode: RoundingMode, q: int)
    requires d > 0
    ensures q == RoundQuotient(n, d, mode) <==> RoundsTo(n, d, mode, q)
  {
    var r := RoundQuotient(n, d, mode);
    MagnitudeRounds(Abs(n), d, mode);
    if n < 0 {
      NegatedRounds(-n, d, mode, RoundMagnitude(-n, d, mode));
    }
    assert RoundsTo(n, d, mode, r);
    if RoundsTo(n, d, mode, q) {
      RoundsToUnique(n, d, mode, q, r);
    }
  }

  lemma MagnitudeOfZero(d: nat, mode: RoundingMode)
    requires d > 0
    ensures RoundMagnitude(0, d, mode) == 0
  {
  }

  /** Negating either side negates the result; the result depends only on the ratio's sign and size. */
  lemma SignSymmetric(n: int, d: int, mode: RoundingMode)
    requires d != 0
    ensures RoundQuotient(-n, d, mode) == -RoundQuotient(n, d, mode)
    ensures RoundQuotient(n, -d, mode) == -RoundQuotient(n, d, mode)
    ensures RoundQuotient(-n, -d, mode) == RoundQuotient(n, d, mode)
  {
    MagnitudeOfZero(Abs(d), mode);
  }

  /** Rounding never inverts an order. */
  lemma RoundMonotone(m: int, n: int, d: int, mode: RoundingMode)
    requires d > 0 && m <= n
    ensures RoundQuotient(m, d, mode) <= RoundQuotient(n, d, mode)
  {
    var p, q := RoundQuotient(m, d, mode), RoundQuotient(n, d, mode);
    QuotientExact(m, d, mode, p);
    QuotientExact(n, d, mode, q);
    if q < p {
      SpreadBound(q, p, d);
      if mode == HalfEven {
        SpreadTight(q, p, d);
      }
    }
  }

  lemma QuotientUnique(n: nat, d: nat, q: int, r: int)
    requires d > 0 && n == q * d + r && 0 <= r < d
    ensures q == n / d && r == n % d
  {
    RoundsToUnique(n, d, BcmathTruncate, q, n / d);
  }

  lemma CancelMagnitude(n: nat, d: nat, c: nat, mode: RoundingMode)
    requires d > 0 && c > 0
    ensures d * c > 0
    ensures RoundMagnitude(n * c, d * c, mode) == RoundMagnitude(n, d, mode)
  {
    var q, r := n / d, n % d;
    EuclideanStep(n, d);
    assert n * c == q * (d * c) + r * c by {
      assert n * c == (q * d) * c + r * c;
      assert (q * d) * c == q * (d * c);
    }
    ScaleOrder(r, d, c);
    ScaleOrder(r * 2, d, c);
    ScaleOrder(d, r * 2, c);
    QuotientUnique(n * c, d * c, q, r * c);
    assert r * 2 * c == r * c * 2;
  }

  /** A common positive factor cancels. */
  lemma CancelFactor(n: int, d: int, c: int, mode: RoundingMode)
    requires d > 0 && c > 0
    ensures d * c > 0
    ensures RoundQuotient(n * c, d * c, mode) == RoundQuotient(n, d, mode)
  {
    CancelMagnitude(Abs(n), d, c, mode);
    assert Abs(n * c) == Abs(n) * c;
    ScaleOrder(n, 0, c);
  }

  /** The same for a divisor of either sign. */
  lemma CancelSigned(n: int, d: int, c: int, mode: RoundingMode)
    requires d != 0 && c > 0
    ensures d * c != 0
    ensures RoundQuotient(n * c, d * c, mode) == RoundQuotient(n, d, mode)
  {
    if d > 0 {
      CancelFactor(n, d, c, mode);
    } else {
      CancelFactor(n, -d, c, mode);
      assert (-d) * c == -(d * c);
      SignSymmetric(n, d, mode);
      SignSymmetric(n * c, d * c, mode);
    }
  }

  lemma TwoSteps(n: int, d: int, e: int, q: int, s: int, p: int, r: int)
    requires d > 0 && e > 0 && n == q * d + s && 0 <= s < d && q == p * e + r && 0 <= r < e
    ensures d * e > 0 && n == p * (d * e) + (r * d + s) && 0 <= r * d + s < d * e
  {
    NonZeroProduct(d, e);
    Expand(p, e, r, d);
    ScaleOrder(-1, r, d);
    ScaleOrder(r, e, d);
    ScaleOrder(0, e, d);
    ScaleOrder(e, r + 1, d);
  }

  lemma Expand(p: int, e: int, r: int, d: int)
    ensures (p * e + r) * d == p * (d * e) + r * d
    ensures (r + 1) * d == r * d + d
  {
  }

  lemma QuotientTwice(n: nat, d: nat, e: nat)
    requires d > 0 && e > 0
    ensures d * e > 0
    ensures (n / d) / e == n / (d * e)
  {
    var q, s := n / d, n % d;
    var p, r := q / e, q % e;
    EuclideanStep(n, d);
    EuclideanStep(q, e);
    TwoSteps(n, d, e, q, s, p, r);
    QuotientUnique(n, d * e, p, r * d + s);
  }

  /** Truncating a quotient again by e is truncating once by d*e. */
  lemma TruncateTwice(n: int, d: int, e: int)
    requires d > 0 && e > 0
    ensures d * e > 0
    ensures RoundQuotient(RoundQuotient(n, d, BcmathTruncate), e, BcmathTruncate)
         == RoundQuotient(n, d * e, BcmathTruncate)
  {
    QuotientTwice(Abs(n), d, e);
    var q: int := Abs(n) / d;
    if n < 0 && q != 0 {
      assert RoundQuotient(n, d, BcmathTruncate) == -q;
    }
  }

  // ---------------------------------------------------------------- div and rescale

  /** `div` returns the value that rounds a/b at the target scale, and no other. */
  lemma DivExact(a: Fixed, b: Fixed, t: nat, mode: RoundingMode, q: int)
    requires b.u != 0
    ensures Div(a, b, t, mode).Success?
    ensures var n := a.u * Pow10(t + b.s);
            var d := Abs(b.u) * Pow10(a.s);
            && d > 0
            && (Div(a, b, t, mode) == Success(Fixed(q, t))
                <==> RoundsTo(if b.u < 0 then -n else n, d, mode, q))
  {
    hide Pow10, RoundQuotient, RoundsTo;
    var n, p := a.u * Pow10(t + b.s), Pow10(a.s);
    NonZeroProduct(Abs(b.u), p);
    var d := Abs(b.u) * p;
    if b.u < 0 {
      NegatedProduct(b.u, p);
      SignSymmetric(-n, d, mode);
    }
    QuotientExact(if b.u < 0 then -n else n, d, mode, q);
  }

  /** `rescale` keeps the value when it extends and rounds it when it reduces. */
  lemma RescaleExact(f: Fixed, t: nat, mode: RoundingMode, q: int)
    ensures f.s <= t ==> Units(Rescale(f, t, mode), t) == Units(f, t)
    ensures t < f.s ==>
              (Rescale(f, t, mode) == Fixed(q, t) <==> RoundsTo(f.u, Pow10(f.s - t), mode, q))
  {
    if t < f.s {
      QuotientExact(f.u, Pow10(f.s - t), mode, q);
    }
  }

  /** Truncating to a finer scale first, whatever that scale, does not change the coarser result. */
  lemma NestedTruncation(f: Fixed, t1: nat, t2: nat)
    requires t2 <= t1
    ensures Rescale(Rescale(f, t1, BcmathTruncate), t2, BcmathTruncate) == Rescale(f, t2, BcmathTruncate)
  {
    if t1 < f.s {
      if t2 < t1 {
        Pow10Add(f.s - t1, t1 - t2);
        TruncateTwice(f.u, Pow10(f.s - t1), Pow10(t1 - t2));
      }
    } else {
      ExtendThenRound(f, t1, t2, BcmathTruncate);
    }
  }

  lemma ExtendThenRound(f: Fixed, t1: nat, t2: nat, mode: RoundingMode)
    requires f.s <= t1 && t2 <= t1
    ensures Rescale(Rescale(f, t1, mode), t2, mode) == Rescale(f, t2, mode)
  {
    if f.s == t1 || t1 == t2 {
    } else if t2 < f.s {
      Pow10Add(f.s - t2, t1 - f.s);
      CancelFactor(f.u, Pow10(f.s - t2), Pow10(t1 - f.s), mode);
    } else {
      var d := Pow10(t1 - t2);
      UnitsRefine(f, t2, t1);
      ExactQuotient(Units(f, t2), d, mode);
      assert Pow10(0) == 1;
    }
  }

  lemma ExactQuotient(q: int, d: int, mode: RoundingMode)
    requires d > 0
    ensures RoundQuotient(q * d, d, mode) == q
  {
    assert RoundsTo(q * d, d, mode, q);
    QuotientExact(q * d, d, mode, q);
  }

  /** Dividing at a fine scale and truncating is dividing at the coarse scale (truncating both times). */
  lemma DivThenTruncate(a: Fixed, b: Fixed, t1: nat, t2: nat)
    requires b.u != 0 && t2 <= t1
    ensures Div(a, b, t1, BcmathTruncate).Success?
    ensures Success(Rescale(Div(a, b, t1, BcmathTruncate).value, t2, BcmathTruncate))
         == Div(a, b, t2, BcmathTruncate)
  {
    hide Pow10, RoundQuotient;
    var mode := BcmathTruncate;
    var p := Pow10(a.s);
    var m1, m2 := a.u * Pow10(t1 + b.s), a.u * Pow10(t2 + b.s);
    var e := Pow10(t1 - t2);
    Pow10Add(t2 + b.s, t1 - t2);
    assert m1 == m2 * e;
    NonZeroProduct(Abs(b.u), p);
    var d := Abs(b.u) * p;
    if b.u < 0 {
      assert b.u * p == -d;
      SignSymmetric(m1, d, mode);
      SignSymmetric(m2, d, mode);
      SignSymmetric(RoundQuotient(m1, d, mode), e, mode);
    }
    if t2 < t1 {
      TruncateTwice(m1, d, e);
      CancelFactor(m2, d, e, mode);
    }
  }

  lemma ExactMultiple(q: int, d: int, mode: RoundingMode)
    requires d > 0
    ensures RoundsTo(q * d, d, mode, q)
  {
    SmallMultiple(q, d);
  }

  /** Rescaling is rounding the value counted in target units. */
  lemma RescaleRounds(f: Fixed, t: nat, mode: RoundingMode)
    ensures RoundsTo(f.u * Pow10(t), Pow10(f.s), mode, Rescale(f, t, mode).u)
  {
    assert Pow10(0) == 1;
    hide Pow10, RoundsTo, RoundQuotient;
    if t < f.s {
      var c := Pow10(t);
      Pow10Add(f.s - t, t);
      CancelFactor(f.u, Pow10(f.s - t), c, mode);
      QuotientExact(f.u * c, Pow10(f.s), mode, RoundQuotient(f.u, Pow10(f.s - t), mode));
    } else {
      Pow10Add(t - f.s, f.s);
      Associate(f.u, Pow10(t - f.s), Pow10(f.s));
      ExactMultiple(f.u * Pow10(t - f.s), Pow10(f.s), mode);
    }
  }

  /** Rounding at one scale is monotone in the value. */
  lemma RescaleMonotone(a: Fixed, b: Fixed, t: nat, mode: RoundingMode)
    requires Cmp(a, b) <= 0
    ensures Rescale(a, t, mode).u <= Rescale(b, t, mode).u
  {
    var k := MaxScale(MaxScale(a.s, b.s), t);
    CmpExact(a, b, k);
    ExtendThenRound(a, k, t, mode);
    ExtendThenRound(b, k, t, mode);
    assert Rescale(a, k, mode).u == Units(a, k) && Rescale(b, k, mode).u == Units(b, k) by {
      assert Pow10(0) == 1;
    }
    if t < k {
      RoundMonotone(Units(a, k), Units(b, k), Pow10(k - t), mode);
    }
  }

  /** Truncation at a scale moves a value by less than one unit, toward zero. */
  lemma TruncationBound(f: Fixed, t: nat)
    requires t <= f.s
    ensures var r := Rescale(f, t, BcmathTruncate).u * Pow10(f.s - t);
            if f.u >= 0 then 0 <= r <= f.u < r + Pow10(f.s - t)
            else r - Pow10(f.s - t) < f.u <= r <= 0
  {
    var p := Pow10(f.s - t);
    var q := Rescale(f, t, BcmathTruncate).u;
    if t == f.s {
      assert p == 1;
    } else {
      RescaleExact(f, t, BcmathTruncate, q);
    }
    QuotientSign(f.u, p, q);
  }

  lemma QuotientSign(n: int, p: int, q: int)
    requires p > 0 && RoundsTo(n, p, BcmathTruncate, q)
    ensures if n >= 0 then q >= 0 && q * p >= 0 else q <= 0 && q * p <= 0
  {
    assert q <= -1 ==> (q + 1) * p <= 0;
    assert q >= 1 ==> (q - 1) * p >= 0;
    assert (q + 1) * p == q * p + p && (q - 1) * p == q * p - p;
    assert q >= 0 ==> q * p >= 0;
    assert q <= 0 ==> q * p <= 0;
  }
}
