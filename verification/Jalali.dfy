/**
 Gregorian to Jalali conversion: a day count, cut into 33-year cycles, four-year groups, years
 and months. From 1600-03-20 on it walks the Jalali calendar day by day.
 */
module Jalali {

  datatype JalaliDate = JalaliDate(jy: int, jm: int, jd: int)

  datatype GregorianDate = GregorianDate(gy: int, gm: int, gd: int)

  /** Division truncating toward zero, and its remainder, with the sign of the dividend. */
  function TruncDiv(a: int, b: int): int
    requires b > 0
  {
    if a >= 0 then a / b else -(-a / b)
  }

  function TruncMod(a: int, b: int): int
    requires b > 0
  {
    if a >= 0 then a % b else -(-a % b)
  }

  predicate IsGregorianLeap(gy: int) {
    (TruncMod(gy, 4) == 0 && TruncMod(gy, 100) != 0) || TruncMod(gy, 400) == 0
  }

  /** The 33-year rule that is published for Jalali years. */
  predicate IsJalaliLeap(jy: int) {
    var r := TruncMod(TruncMod(jy - 474, 33) + 33, 33);
    r == 1 || r == 5 || r == 9 || r == 13 || r == 17 || r == 22 || r == 26 || r == 30
  }

  // ---------------------------------------------------------------- the day count

  function GregorianMonthLength(gy: int, gm: int): (n: int)
    requires 1 <= gm <= 12
    ensures 28 <= n <= 31
  {
    if gm == 2 then if IsGregorianLeap(gy) then 29 else 28
    else if gm == 4 || gm == 6 || gm == 9 || gm == 11 then 30 else 31
  }

  function DaysBeforeMonth(gy: int, gm: int): int
    requires gm <= 13
    decreases gm
  {
    if gm <= 1 then 0 else DaysBeforeMonth(gy, gm - 1) + GregorianMonthLength(gy, gm - 1)
  }

  function DaysBeforeYear(gy: int): int {
    var y := gy - 1600;
    365 * y + TruncDiv(y + 3, 4) - TruncDiv(y + 99, 100) + TruncDiv(y + 399, 400)
  }

  /** Days from 1600-01-01, less the 79 before the first Jalali day it can place. */
  function DayNumber(g: GregorianDate): int
    requires g.gm <= 13
  {
    DaysBeforeYear(g.gy) + DaysBeforeMonth(g.gy, g.gm) + (g.gd - 1) - 79
  }

  predicate IsDate(g: GregorianDate) {
    1 <= g.gm <= 12 && 1 <= g.gd <= GregorianMonthLength(g.gy, g.gm)
  }

  function NextDate(g: GregorianDate): GregorianDate
    requires IsDate(g)
  {
    if g.gd < GregorianMonthLength(g.gy, g.gm) then g.(gd := g.gd + 1)
    else if g.gm < 12 then GregorianDate(g.gy, g.gm + 1, 1)
    else GregorianDate(g.gy + 1, 1, 1)
  }

  lemma YearLength(gy: int)
    requires gy >= 1600
    ensures DaysBeforeMonth(gy, 13) == if IsGregorianLeap(gy) then 366 else 365
    ensures DaysBeforeYear(gy + 1) == DaysBeforeYear(gy) + DaysBeforeMonth(gy, 13)
  {
    MonthTable(gy);
    LeapCount(gy - 1600);
    hide DaysBeforeMonth;
  }

  lemma MonthTable(gy: int)
    ensures var l := if IsGregorianLeap(gy) then 29 else 28;
            && DaysBeforeMonth(gy, 3) == 31 + l && DaysBeforeMonth(gy, 13) == 337 + l
  {
    hide IsGregorianLeap;
    assert DaysBeforeMonth(gy, 1) == 0;
    assert DaysBeforeMonth(gy, 2) == 31;
    assert DaysBeforeMonth(gy, 4) == DaysBeforeMonth(gy, 3) + 31;
    assert DaysBeforeMonth(gy, 6) == DaysBeforeMonth(gy, 4) + 61;
    assert DaysBeforeMonth(gy, 8) == DaysBeforeMonth(gy, 6) + 61;
    assert DaysBeforeMonth(gy, 10) == DaysBeforeMonth(gy, 8) + 61;
    assert DaysBeforeMonth(gy, 12) == DaysBeforeMonth(gy, 10) + 61;
  }

  /** The three leap terms move together with the leap rule. */
  lemma LeapCount(y: nat)
    ensures (y + 4) / 4 - (y + 3) / 4 == if y % 4 == 0 then 1 else 0
    ensures (y + 100) / 100 - (y + 99) / 100 == if y % 100 == 0 then 1 else 0
    ensures (y + 400) / 400 - (y + 399) / 400 == if y % 400 == 0 then 1 else 0
    ensures (y + 1600) % 4 == y % 4 && (y + 1600) % 100 == y % 100 && (y + 1600) % 400 == y % 400
    ensures (y % 400 == 0 ==> y % 100 == 0) && (y % 100 == 0 ==> y % 4 == 0)
  {
    LeapTerm4(y);
    LeapTerm100(y);
    LeapTerm400(y);
  }

  lemma LeapTerm4(y: nat)
    ensures (y + 4) / 4 - (y + 3) / 4 == if y % 4 == 0 then 1 else 0
    ensures (y + 1600) % 4 == y % 4
  {
  }

  lemma LeapTerm100(y: nat)
    ensures (y + 100) / 100 - (y + 99) / 100 == if y % 100 == 0 then 1 else 0
    ensures (y + 1600) % 100 == y % 100 && (y % 100 == 0 ==> y % 4 == 0)
  {
    assert y == 100 * (y / 100) + y % 100;
    assert 100 * (y / 100) == 4 * (25 * (y / 100));
  }

  lemma LeapTerm400(y: nat)
    ensures (y + 400) / 400 - (y + 399) / 400 == if y % 400 == 0 then 1 else 0
    ensures (y + 1600) % 400 == y % 400 && (y % 400 == 0 ==> y % 100 == 0)
  {
    assert y == 400 * (y / 400) + y % 400;
    assert 400 * (y / 400) == 100 * (4 * (y / 400));
  }

  /** The day after is numbered one higher. */
  lemma NextDayNumber(g: GregorianDate)
    requires IsDate(g) && g.gy >= 1600
    ensures DayNumber(NextDate(g)) == DayNumber(g) + 1
  {
    hide DaysBeforeYear, IsGregorianLeap;
    YearLength(g.gy);
  }

  predicate Earlier(g: GregorianDate, h: GregorianDate) {
    g.gy < h.gy || (g.gy == h.gy && (g.gm < h.gm || (g.gm == h.gm && g.gd < h.gd)))
  }

  lemma {:induction false} MonthsGrow(gy: int, m: int, n: int)
    requires 1 <= m < n <= 13
    ensures DaysBeforeMonth(gy, n) >= DaysBeforeMonth(gy, m) + GregorianMonthLength(gy, m)
    decreases n
  {
    if m < n - 1 {
      MonthsGrow(gy, m, n - 1);
    }
  }

  lemma {:induction false} YearsGrow(x: int, y: int)
    requires 1600 <= x < y
    ensures DaysBeforeYear(y) >= DaysBeforeYear(x) + DaysBeforeMonth(x, 13)
    decreases y
  {
    hide DaysBeforeYear, DaysBeforeMonth, IsGregorianLeap;
    YearLength(y - 1);
    if x < y - 1 {
      YearsGrow(x, y - 1);
    }
  }

  /** Earlier dates have smaller numbers. */
  lemma DayNumberMonotone(g: GregorianDate, h: GregorianDate)
    requires IsDate(g) && IsDate(h) && g.gy >= 1600 && Earlier(g, h)
    ensures DayNumber(g) < DayNumber(h)
  {
    hide DaysBeforeYear, DaysBeforeMonth, IsGregorianLeap, GregorianMonthLength;
    if g.gy < h.gy {
      YearsGrow(g.gy, h.gy);
      MonthsGrow(g.gy, g.gm, 13);
      BeforeIsNonNegative(h.gy, h.gm);
    } else if g.gm < h.gm {
      MonthsGrow(g.gy, g.gm, h.gm);
    }
  }

  lemma {:induction false} BeforeIsNonNegative(gy: int, gm: int)
    requires gm <= 13
    ensures DaysBeforeMonth(gy, gm) >= 0
    decreases gm
  {
    if gm > 1 {
      BeforeIsNonNegative(gy, gm - 1);
    }
  }

  // ---------------------------------------------------------------- the Jalali calendar

  /** A year of 366 days, as the conversion places them: eight in every 33, counted from 979. */
  predicate LongYear(jy: int) {
    var r := (jy - 979) % 33;
    r % 4 == 0 && r != 32
  }

  function JalaliMonthLength(jy: int, jm: int): int {
    if jm <= 6 then 31 else if jm <= 11 || LongYear(jy) then 30 else 29
  }

  /** A Jalali date: six months of 31 days, five of 30, then 29 or 30. */
  predicate IsJalali(j: JalaliDate) {
    1 <= j.jm <= 12 && 1 <= j.jd <= JalaliMonthLength(j.jy, j.jm)
  }

  function NextJalali(j: JalaliDate): JalaliDate {
    if j.jd < JalaliMonthLength(j.jy, j.jm) then j.(jd := j.jd + 1)
    else if j.jm < 12 then JalaliDate(j.jy, j.jm + 1, 1)
    else JalaliDate(j.jy + 1, 1, 1)
  }

  /** The 0-based day of the year. */
  function Ordinal(jm: int, jd: int): int {
    if jm <= 6 then (jm - 1) * 31 + jd - 1 else 186 + (jm - 7) * 30 + jd - 1
  }

  /** The first day of the year 979 + k. */
  function YearStart(k: nat): nat {
    365 * k + 8 * (k / 33) + (k % 33 + 3) / 4
  }

  function JalaliNumber(j: JalaliDate): int
    requires j.jy >= 979
  {
    YearStart(j.jy - 979) + Ordinal(j.jm, j.jd)
  }

  function MonthAndDay(jy: int, d: int): JalaliDate {
    if d < 186 then JalaliDate(jy, 1 + TruncDiv(d, 31), 1 + TruncMod(d, 31))
    else JalaliDate(jy, 7 + TruncDiv(d - 186, 30), 1 + TruncMod(d - 186, 30))
  }

  /** Day `inGroup` of a four-year group of a 33-year cycle. */
  function InGroup(cycle: int, group: int, inGroup: int): JalaliDate {
    var first := 979 + 33 * cycle + 4 * group;
    if inGroup >= 366 then MonthAndDay(first + TruncDiv(inGroup - 1, 365), TruncMod(inGroup - 1, 365))
    else MonthAndDay(first, inGroup)
  }

  /** The date a day number converts to. */
  function FromDay(n: int): JalaliDate {
    var inCycle := TruncMod(n, 12053);
    InGroup(TruncDiv(n, 12053), TruncDiv(inCycle, 1461), TruncMod(inCycle, 1461))
  }

  lemma YearStep(k: nat)
    ensures YearStart(k + 1) == YearStart(k) + if LongYear(979 + k) then 366 else 365
  {
    var q, r := k / 33, k % 33;
    if r < 32 {
      assert (k + 1) / 33 == q && (k + 1) % 33 == r + 1;
    } else {
      assert (k + 1) / 33 == q + 1 && (k + 1) % 33 == 0;
    }
  }

  lemma MonthAndDayExact(jy: int, d: int)
    requires 0 <= d < if LongYear(jy) then 366 else 365
    ensures var j := MonthAndDay(jy, d); j.jy == jy && IsJalali(j) && Ordinal(j.jm, j.jd) == d
  {
    hide LongYear;
  }

  /** Every day number from 0 on is the number of the date it converts to. */
  lemma FromDayExact(n: int)
    requires n >= 0
    ensures var j := FromDay(n); j.jy >= 979 && IsJalali(j) && JalaliNumber(j) == n
  {
    hide IsJalali, InGroup, JalaliNumber;
    var inCycle := n % 12053;
    GroupCount(inCycle);
    InGroupExact(n / 12053, inCycle / 1461, inCycle % 1461);
  }

  function YearInGroup(inGroup: nat): nat {
    if inGroup >= 366 then (inGroup - 1) / 365 else 0
  }

  function DayInYear(inGroup: nat): nat {
    if inGroup >= 366 then (inGroup - 1) % 365 else inGroup
  }

  lemma InGroupExact(cycle: nat, group: nat, inGroup: nat)
    requires group <= 8 && inGroup < 1461 && group * 1461 + inGroup < 12053
    ensures var j := InGroup(cycle, group, inGroup);
            j.jy >= 979 && IsJalali(j) && JalaliNumber(j) == 12053 * cycle + 1461 * group + inGroup
  {
    hide InGroup, MonthAndDay, IsJalali, Ordinal, LongYear, YearStart, YearInGroup, DayInYear;
    var year, day := YearInGroup(inGroup), DayInYear(inGroup);
    CycleYear(cycle, group, year, inGroup, day);
    MonthAndDayExact(979 + (33 * cycle + 4 * group + year), day);
    InGroupPlaced(cycle, group, inGroup, year, day);
  }

  lemma InGroupPlaced(cycle: nat, group: nat, inGroup: nat, year: nat, day: nat)
    requires year == YearInGroup(inGroup) && day == DayInYear(inGroup)
    ensures InGroup(cycle, group, inGroup) == MonthAndDay(979 + (33 * cycle + 4 * group + year), day)
  {
    hide MonthAndDay;
  }

  lemma GroupCount(inCycle: nat)
    requires inCycle < 12053
    ensures inCycle / 1461 <= 8
  {
  }

  lemma CycleYear(cycle: nat, group: nat, year: nat, inGroup: nat, day: nat)
    requires group <= 8 && inGroup < 1461 && group * 1461 + inGroup < 12053
    requires year == YearInGroup(inGroup) && day == DayInYear(inGroup)
    ensures var k := 33 * cycle + 4 * group + year;
            && YearStart(k) + day == 12053 * cycle + 1461 * group + inGroup
            && day < if LongYear(979 + k) then 366 else 365
  {
    var k := 33 * cycle + 4 * group + year;
    assert year <= 3 && (group == 8 ==> year == 0);
    var r := 4 * group + year;
    assert 0 <= r < 33 && k == 33 * cycle + r;
    assert k / 33 == cycle && k % 33 == r;
  }

  lemma {:induction false} YearStartGrows(k: nat, l: nat)
    requires k < l
    ensures YearStart(l) >= YearStart(k) + if LongYear(979 + k) then 366 else 365
    decreases l
  {
    hide YearStart, LongYear;
    YearStep(l - 1);
    if k < l - 1 {
      YearStartGrows(k, l - 1);
    }
  }

  lemma OrdinalRange(j: JalaliDate)
    requires IsJalali(j)
    ensures 0 <= Ordinal(j.jm, j.jd) < if LongYear(j.jy) then 366 else 365
  {
    hide LongYear;
  }

  predicate JalaliEarlier(a: JalaliDate, b: JalaliDate) {
    a.jy < b.jy || (a.jy == b.jy && (a.jm < b.jm || (a.jm == b.jm && a.jd < b.jd)))
  }

  /** Later dates have larger numbers, so the numbering is one to one. */
  lemma JalaliMonotone(a: JalaliDate, b: JalaliDate)
    requires IsJalali(a) && IsJalali(b) && a.jy >= 979 && JalaliEarlier(a, b)
    ensures JalaliNumber(a) < JalaliNumber(b)
  {
    OrdinalRange(a);
    OrdinalRange(b);
    hide LongYear, YearStart;
    if a.jy < b.jy {
      YearStartGrows(a.jy - 979, b.jy - 979);
    }
  }

  /** Every Jalali date from 979/01/01 on is reached, from its own number. */
  lemma FromDayOnto(j: JalaliDate)
    requires IsJalali(j) && j.jy >= 979
    ensures JalaliNumber(j) >= 0 && FromDay(JalaliNumber(j)) == j
  {
    OrdinalRange(j);
    var n := JalaliNumber(j);
    FromDayExact(n);
    hide FromDay, IsJalali, YearStart;
    var back := FromDay(n);
    if JalaliEarlier(back, j) {
      JalaliMonotone(back, j);
    } else if JalaliEarlier(j, back) {
      JalaliMonotone(j, back);
    }
  }

  lemma NextJalaliNumber(j: JalaliDate)
    requires IsJalali(j) && j.jy >= 979
    ensures IsJalali(NextJalali(j)) && JalaliNumber(NextJalali(j)) == JalaliNumber(j) + 1
  {
    hide YearStart;
    YearStep(j.jy - 979);
    NextOrdinal(j);
  }

  lemma NextOrdinal(j: JalaliDate)
    requires IsJalali(j)
    ensures var n := NextJalali(j);
            && IsJalali(n)
            && (|| (n.jy == j.jy && Ordinal(n.jm, n.jd) == Ordinal(j.jm, j.jd) + 1)
                || (n.jy == j.jy + 1 && Ordinal(n.jm, n.jd) == 0
                    && Ordinal(j.jm, j.jd) + 1 == if LongYear(j.jy) then 366 else 365))
  {
    hide LongYear;
  }

  // ---------------------------------------------------------------- the conversion

  method GregorianToJalali(gy: int, gm: int, gd: int) returns (j: JalaliDate)
    requires gm <= 13
    ensures j == FromDay(DayNumber(GregorianDate(gy, gm, gd)))
  {
    hide TruncDiv, TruncMod, GregorianMonthLength;
    var gy2 := gy - 1600;
    var gm2 := gm - 1;
    var gd2 := gd - 1;
    var gDayNo := 365 * gy2 + TruncDiv(gy2 + 3, 4) - TruncDiv(gy2 + 99, 100) + TruncDiv(gy2 + 399, 400);
    var i := 0;
    while i < gm2
      invariant 0 <= i && (i <= gm2 || i == 0)
      invariant gDayNo == DaysBeforeYear(gy) + DaysBeforeMonth(gy, i + 1)
    {
      gDayNo := gDayNo + GregorianMonthLength(gy, i + 1);
      i := i + 1;
    }
    gDayNo := gDayNo + gd2;

    var jDayNo := gDayNo - 79;
    var jNp := TruncDiv(jDayNo, 12053);
    jDayNo := TruncMod(jDayNo, 12053);
    var jy := 979 + 33 * jNp + 4 * TruncDiv(jDayNo, 1461);
    jDayNo := TruncMod(jDayNo, 1461);
    if jDayNo >= 366 {
      jy := jy + TruncDiv(jDayNo - 1, 365);
      jDayNo := TruncMod(jDayNo - 1, 365);
    }
    var jm, jd;
    if jDayNo < 186 {
      jm := 1 + TruncDiv(jDayNo, 31);
      jd := 1 + TruncMod(jDayNo, 31);
    } else {
      var rest := jDayNo - 186;
      jm := 7 + TruncDiv(rest, 30);
      jd := 1 + TruncMod(rest, 30);
    }
    j := JalaliDate(jy, jm, jd);
  }

  function Converted(g: GregorianDate): JalaliDate
    requires g.gm <= 13
  {
    FromDay(DayNumber(g))
  }

  const FIRST := GregorianDate(1600, 3, 20)

  predicate FromFirst(g: GregorianDate) {
    IsDate(g) && (g == FIRST || Earlier(FIRST, g))
  }

  lemma FirstIsZero(g: GregorianDate)
    requires FromFirst(g)
    ensures DayNumber(FIRST) == 0 && DayNumber(g) >= 0 && g.gy >= 1600
  {
    MonthTable(1600);
    assert IsGregorianLeap(1600);
    assert DaysBeforeYear(1600) == 0;
    hide DaysBeforeYear, DaysBeforeMonth;
    if g != FIRST {
      DayNumberMonotone(FIRST, g);
    }
  }

  /** The next day converts to the next Jalali day. */
  lemma NextDayConverts(g: GregorianDate)
    requires FromFirst(g)
    ensures IsJalali(Converted(g)) && Converted(NextDate(g)) == NextJalali(Converted(g))
  {
    hide DayNumber, FromDay, IsJalali, NextDate, NextJalali, JalaliNumber;
    FirstIsZero(g);
    FromDayExact(DayNumber(g));
    NextDayNumber(g);
    NextJalaliNumber(Converted(g));
    SameYearOrNext(Converted(g));
    FromDayOnto(NextJalali(Converted(g)));
    NextMonth(g);
  }

  lemma SameYearOrNext(j: JalaliDate)
    ensures NextJalali(j).jy >= j.jy
  {
  }

  lemma NextMonth(g: GregorianDate)
    requires IsDate(g)
    ensures NextDate(g).gm <= 13
  {
  }

  /** The conversion is strictly increasing, hence one to one, on an unbounded range. */
  lemma ConversionIncreasing(g: GregorianDate, h: GregorianDate)
    requires FromFirst(g) && FromFirst(h) && Earlier(g, h)
    ensures JalaliEarlier(Converted(g), Converted(h))
  {
    hide DayNumber, FromDay, IsJalali, JalaliNumber;
    FirstIsZero(g);
    FirstIsZero(h);
    DayNumberMonotone(g, h);
    FromDayExact(DayNumber(g));
    FromDayExact(DayNumber(h));
    var a, b := Converted(g), Converted(h);
    if JalaliEarlier(b, a) {
      JalaliMonotone(b, a);
    }
  }

  // ---------------------------------------------------------------- where it stops

  /**
   Before 1600-03-20 the remainders turn negative and the result is no date, except at the start
   of a four-year group.
   */
  lemma EarlierDaysFail(n: int)
    requires n < 0
    ensures IsJalali(FromDay(n)) <==> (-n % 12053) % 1461 == 0
  {
    var r := (-n % 12053) % 1461;
    assert TruncMod(TruncMod(n, 12053), 1461) == -r;
    NegativeDay(FromDay(n).jy, r);
  }

  lemma YearsBefore(gy: int)
    requires gy < 1600
    ensures DaysBeforeYear(gy) <= if gy == 1599 then -365 else -366
  {
  }

  /** Dates before 1600-03-20, in whatever year, have negative numbers. */
  lemma EarlierIsNegative(g: GregorianDate)
    requires IsDate(g) && Earlier(g, FIRST)
    ensures DayNumber(g) < 0
  {
    if g.gy == 1600 {
      FirstIsZero(FIRST);
      DayNumberMonotone(g, FIRST);
    } else {
      YearsBefore(g.gy);
      MonthTable(g.gy);
      hide DaysBeforeYear, DaysBeforeMonth, GregorianMonthLength, IsGregorianLeap;
      MonthsGrow(g.gy, g.gm, 13);
    }
  }

  /** What an earlier date converts to is a date only at the start of a four-year group. */
  lemma EarlierDatesFail(g: GregorianDate)
    requires IsDate(g) && Earlier(g, FIRST)
    ensures DayNumber(g) < 0
    ensures IsJalali(Converted(g)) <==> (-DayNumber(g) % 12053) % 1461 == 0
  {
    EarlierIsNegative(g);
    EarlierDaysFail(DayNumber(g));
    hide DayNumber, FromDay;
  }

  /** The day before the first one converts to 979/01/00. */
  lemma DayBeforeFails()
    ensures var g := GregorianDate(1600, 3, 19);
            IsDate(g) && NextDate(g) == FIRST && Converted(g) == JalaliDate(979, 1, 0) && !IsJalali(Converted(g))
  {
    var g := GregorianDate(1600, 3, 19);
    FirstIsZero(FIRST);
    assert DayNumber(g) == DayNumber(FIRST) - 1;
  }

  lemma NegativeDay(jy: int, r: int)
    requires r >= 0
    ensures IsJalali(MonthAndDay(jy, -r)) <==> r == 0
  {
    hide LongYear;
  }

  /** The conversion's long years are the published leap years except at six residues. */
  lemma LeapRulesAgreeExactly(jy: int)
    requires jy >= 979
    ensures (LongYear(jy) <==> IsJalaliLeap(jy)) <==> (jy - 474) % 33 !in {9, 10, 13, 14, 17, 18}
  {
    ShiftedResidue(jy);
    DoubleMod(jy - 474);
    hide TruncMod;
  }

  lemma ShiftedResidue(jy: int)
    ensures var r := (jy - 979) % 33; (jy - 474) % 33 == if r < 23 then r + 10 else r - 23
  {
    var q, r := (jy - 979) / 33, (jy - 979) % 33;
    assert jy - 474 == 33 * (q + 15) + (r + 10);
  }

  lemma DoubleMod(n: int)
    requires n >= 0
    ensures TruncMod(TruncMod(n, 33) + 33, 33) == n % 33
  {
  }

  // ---------------------------------------------------------------- the two calendars, by their tables

  const GREGORIAN_MONTHS := [31, 28, 31, 30, 31, 30, 31, 31, 30, 31, 30, 31]
  const JALALI_MONTHS := [31, 31, 31, 31, 31, 31, 30, 30, 30, 30, 30, 29]

  predicate GregorianOnTable(g: GregorianDate) {
    && 1 <= g.gm <= 12
    && var leap := g.gy % 4 == 0 && (g.gy % 100 != 0 || g.gy % 400 == 0);
    1 <= g.gd <= GREGORIAN_MONTHS[g.gm - 1] + if leap && g.gm == 2 then 1 else 0
  }

  predicate JalaliOnTable(j: JalaliDate) {
    && 1 <= j.jm <= 12
    && var leap := (j.jy - 979) % 33 in {0, 4, 8, 12, 16, 20, 24, 28};
    1 <= j.jd <= JALALI_MONTHS[j.jm - 1] + if leap && j.jm == 12 then 1 else 0
  }

  /** The next day of the month; failing that the first of the next month; failing that of the next year. */
  predicate GregorianFollows(g: GregorianDate, h: GregorianDate) {
    if GregorianOnTable(g.(gd := g.gd + 1)) then h == g.(gd := g.gd + 1)
    else if g.gm < 12 then h == GregorianDate(g.gy, g.gm + 1, 1)
    else h == GregorianDate(g.gy + 1, 1, 1)
  }

  predicate JalaliFollows(a: JalaliDate, b: JalaliDate) {
    if JalaliOnTable(a.(jd := a.jd + 1)) then b == a.(jd := a.jd + 1)
    else if a.jm < 12 then b == JalaliDate(a.jy, a.jm + 1, 1)
    else b == JalaliDate(a.jy + 1, 1, 1)
  }

  lemma GregorianTable(g: GregorianDate)
    requires g.gy >= 0
    ensures IsDate(g) <==> GregorianOnTable(g)
  {
  }

  lemma JalaliTable(j: JalaliDate)
    ensures IsJalali(j) <==> JalaliOnTable(j)
  {
  }

  /** The conversion starts at 979-01-01 on 1600-03-20, and a day on one calendar is a day on the other. */
  lemma CalendarsInStep(g: GregorianDate, h: GregorianDate)
    requires GregorianOnTable(g) && GregorianFollows(g, h)
    requires g.gy > 1600 || (g.gy == 1600 && (g.gm > 3 || (g.gm == 3 && g.gd >= 20)))
    ensures h.gm <= 12 && JalaliOnTable(Converted(g)) && JalaliFollows(Converted(g), Converted(h))
    ensures Converted(GregorianDate(1600, 3, 20)) == JalaliDate(979, 1, 1)
  {
    hide FromDay, DayNumber;
    GregorianTable(g);
    GregorianTable(g.(gd := g.gd + 1));
    assert h == NextDate(g);
    NextDayConverts(g);
    var a := Converted(g);
    JalaliTable(a);
    JalaliTable(a.(jd := a.jd + 1));
    FirstIsZero(FIRST);
    FirstConverts();
  }

  lemma FirstConverts()
    ensures FromDay(0) == JalaliDate(979, 1, 1)
  {
  }
}
