/**
 * The four-pillars calculator: a birth date and hour become four
 * (stem, branch) pairs of the sixty-term cycle.  Month boundaries are the
 * calendar months, and the year changes on 4 February, not at the exact
 * solar terms.
 */
module Pillars {

  import opened Wrappers
  import opened Cycles
  import opened Calendar

  /** A pillar: one stem and one branch. */
  datatype StemBranch = StemBranch(stem: Stem, branch: Branch)

  datatype FourPillars = FourPillars(year: StemBranch, month: StemBranch, day: StemBranch, hour: StemBranch)

  /** Month is meant to be 1..12, day 1..31 and hour 0..23. */
  datatype BirthData = BirthData(year: int, month: int, day: int, hour: int)

  /** Term `k` of the sixty-term cycle 甲子, 乙丑, ..., 癸亥 (taken modulo 60). */
  function Sexagenary(k: int): StemBranch
  {
    StemBranch(k % 10, k % 12)
  }

  /** The sixty terms are exactly the pairs whose stem and branch have equal parity. */
  predicate IsSexagenaryPair(p: StemBranch)
  {
    p.stem % 2 == p.branch % 2
  }

  lemma SexagenaryTerm(k: int)
    ensures IsSexagenaryPair(Sexagenary(k))
    ensures Sexagenary(k + 60) == Sexagenary(k)
  {
    var q10, q12 := k / 10, k / 12;
    assert k == 10 * q10 + k % 10;
    assert k == 12 * q12 + k % 12;
    assert (k % 10) % 2 == k % 2 == (k % 12) % 2;
  }

  /** The position of a sexagenary pair within the cycle: the one term of the sixty that it is. */
  function CyclePosition(p: StemBranch): (k: int)
    requires IsSexagenaryPair(p)
    ensures 0 <= k < 60 && Sexagenary(k) == p
    ensures forall j :: 0 <= j < 60 && Sexagenary(j) == p ==> j == k
  {
    var x := 6 * p.stem - 5 * p.branch;
    var k := x % 60;
    var h, q := (p.stem - p.branch) / 2, x / 60;
    assert p.stem - p.branch == 2 * h;
    assert x == 60 * q + k;
    Cycles.ModUnique(k, 10, h - 6 * q, p.stem);
    Cycles.ModUnique(k, 12, h - 5 * q, p.branch);
    forall j | 0 <= j < 60 && Sexagenary(j) == p
      ensures j == k
    {
      SexagenaryUnique(j, k);
    }
    k
  }

  /** Two of the first sixty terms with the same stem and branch are the same term. */
  lemma SexagenaryUnique(j: int, k: int)
    requires 0 <= j < 60 && 0 <= k < 60 && Sexagenary(j) == Sexagenary(k)
    ensures j == k
  {
    var a, b := j / 10 - k / 10, j / 12 - k / 12;
    assert j - k == 10 * a;
    assert j - k == 12 * b;
    NoSmallCommonMultiple(a, b);
  }

  /** 60 is the least common multiple of 10 and 12. */
  lemma NoSmallCommonMultiple(a: int, b: int)
    requires -5 <= a <= 5 && 10 * a == 12 * b
    ensures a == 0
  {
    assert -4 <= b <= 4;
  }

  // ---------------------------------------------------------------- year

  const YearAnchor: int := 1924

  /**
   * The year whose pillar applies: with month and day given, a date from
   * 4 February on keeps its year and an earlier one falls in the year before.
   */
  function AdjustedYear(year: int, month: Option<int>, day: Option<int>): (r: int)
    ensures year - 1 <= r <= year
    ensures month.Some? && day.Some? && 1 <= month.value <= 12 ==>
      (r == year <==> month.value > 2 || (month.value == 2 && day.value >= 4))
    ensures month.None? || day.None? ==> r == year
  {
    if month.Some? && day.Some? && (month.value == 1 || (month.value == 2 && day.value <= 3))
    then year - 1
    else year
  }

  /** 1924 is 甲子; `month` and `day` are the optional arguments of the source. */
  function YearStemBranch(year: int, month: Option<int>, day: Option<int>): (r: StemBranch)
    ensures r == Sexagenary(AdjustedYear(year, month, day) - YearAnchor)
  {
    var yearOffset := AdjustedYear(year, month, day) - YearAnchor;
    StemBranch(CycleIndex(yearOffset, 10), CycleIndex(yearOffset, 12))
  }

  lemma YearPillarAnchor()
    ensures YearStemBranch(1924, None, None) == StemBranch(0, 0)
  {
  }

  /** Without month and day, the year pillar is the floored offset from 1924, even before 1924. */
  lemma YearPillarOffset(y: int)
    ensures var r := YearStemBranch(y, None, None);
      r.stem == (y - 1924) % 10 && r.branch == (y - 1924) % 12
      && (y < 1924 ==> r.stem == (10 - (1924 - y) % 10) % 10)
  {
    if y < 1924 {
      var a := 1924 - y;
      if a % 10 == 0 {
        Cycles.ModUnique(y - 1924, 10, -(a / 10), 0);
      } else {
        Cycles.ModUnique(y - 1924, 10, -(a / 10) - 1, 10 - a % 10);
      }
    }
  }

  lemma {:induction false} YearPillarPeriod(y: int)
    ensures YearStemBranch(y + 60, None, None) == YearStemBranch(y, None, None)
  {
    SexagenaryTerm(y - YearAnchor);
  }

  /** With month and day given, 1 January .. 3 February count as the previous year. */
  lemma YearPillarBoundary(y: int, m: int, d: int)
    ensures m == 1 || (m == 2 && d <= 3) ==> YearStemBranch(y, Some(m), Some(d)) == YearStemBranch(y - 1, None, None)
    ensures !(m == 1 || (m == 2 && d <= 3)) ==> YearStemBranch(y, Some(m), Some(d)) == YearStemBranch(y, None, None)
  {
  }

  // ---------------------------------------------------------------- month

  /** The branch of each calendar month, 1 = 寅 ... 12 = 丑. */
  const MonthBranches: seq<Branch> := [2, 3, 4, 5, 6, 7, 8, 9, 10, 11, 0, 1]

  /** The stem of month 1, indexed by the year's stem. */
  const MonthStemStart: seq<Stem> := [2, 4, 6, 8, 0, 2, 4, 6, 8, 0]

  /** Month 1 takes the stem MonthStemStart gives, each later month two more. */
  function MonthStem(yearStem: Stem, month: int): (s: Stem)
    requires 1 <= month <= 12
    ensures s == (2 * (yearStem + month)) % 10
  {
    var stemStartIndex := MonthStemStart[yearStem];
    assert stemStartIndex == (2 * yearStem + 2) % 10;
    Cycles.ModAddLeft(2 * yearStem + 2, (month - 1) * 2, 10);
    // the operand is never negative, so JavaScript's % agrees with Dafny's
    (stemStartIndex + (month - 1) * 2) % 10
  }

  /**
   * The month pillar.  The stem advances by two per month, so every month
   * stem is even; see MonthPillarParity.
   */
  function MonthStemBranch(year: int, month: int, day: Option<int>): (r: StemBranch)
    requires 1 <= month <= 12
    ensures r.branch == (month + 1) % 12
    ensures r.stem == (2 * (YearStemBranch(year, Some(month), day).stem + month)) % 10
  {
    var yearStemIndex := YearStemBranch(year, Some(month), day).stem;
    StemBranch(MonthStem(yearStemIndex, month), MonthBranches[month - 1])
  }

  /** The month branch depends on the month alone. */
  lemma MonthBranchOnlyFromMonth(y1: int, y2: int, m: int, d1: Option<int>, d2: Option<int>)
    requires 1 <= m <= 12
    ensures MonthStemBranch(y1, m, d1).branch == MonthStemBranch(y2, m, d2).branch
  {
  }

  /** Year stems five apart (甲 and 己, 乙 and 庚, ...) give the same month stems. */
  lemma MonthStemYearPairs(ys1: Stem, ys2: Stem, m: int)
    requires 1 <= m <= 12 && ys1 % 5 == ys2 % 5
    ensures MonthStem(ys1, m) == MonthStem(ys2, m)
  {
    Cycles.ModAddLeft(ys1, m, 5);
    Cycles.ModAddLeft(ys2, m, 5);
    DoubleModTen(ys1 + m, ys2 + m);
  }

  lemma DoubleModTen(a: int, b: int)
    requires a % 5 == b % 5
    ensures (2 * a) % 10 == (2 * b) % 10
  {
    var qa, qb := a / 5, b / 5;
    Cycles.ModUnique(2 * a, 10, qa, 2 * (a % 5));
    Cycles.ModUnique(2 * b, 10, qb, 2 * (b % 5));
  }

  /**
   * Every month stem is even, so the month pillar is one of the sixty terms
   * exactly in the odd months; an even month pairs an even stem with an odd
   * branch.
   */
  lemma MonthPillarParity(y: int, m: int, d: Option<int>)
    requires 1 <= m <= 12
    ensures MonthStemBranch(y, m, d).stem % 2 == 0
    ensures IsSexagenaryPair(MonthStemBranch(y, m, d)) <==> m % 2 == 1
  {
    MonthParity(YearStemBranch(y, Some(m), d).stem, m);
  }

  lemma MonthParity(ys: Stem, m: int)
    requires 1 <= m <= 12
    ensures ((2 * (ys + m)) % 10) % 2 == 0
    ensures ((m + 1) % 12) % 2 == 0 <==> m % 2 == 1
  {
    Cycles.ParityOfRemainder(2 * (ys + m), 10);
    Cycles.ModUnique(2 * (ys + m), 2, ys + m, 0);
    Cycles.ParityOfRemainder(m + 1, 12);
  }

  // ---------------------------------------------------------------- day

  /** 1900-01-01 is 辛丑, term 37 of the cycle. */
  const DayAnchorStem: Stem := 7
  const DayAnchorBranch: Branch := 1

  /** The whole days from 1900-01-01 to the date `Date` makes of it. */
  function DaysSinceAnchor(year: int, month: int, day: int): int
  {
    DateDayNumber(year, month, day) - DateDayNumber(1900, 1, 1)
  }

  /** For a valid date from year 100 on, the day count is negative exactly before 1900. */
  lemma DaysSinceAnchorSign(y: int, m: int, d: int)
    requires y >= 100 && ValidDate(y, m, d)
    ensures DaysSinceAnchor(y, m, d) >= 0 <==> y >= 1900
  {
    assert ValidDate(1900, 1, 1);
    assert DateDayNumber(1900, 1, 1) == DaysBeforeYear(1900);
    DayWithinYear(y, m, d);
    if y >= 1900 {
      DaysBeforeYearMonotone(1900, y);
    } else {
      DaysBeforeNextYear(y);
      DaysBeforeYearMonotone(y + 1, 1900);
    }
  }

  function DayStemBranch(year: int, month: int, day: int): (r: StemBranch)
    ensures r == Sexagenary(37 + DaysSinceAnchor(year, month, day))
  {
    var daysDiff := DaysSinceAnchor(year, month, day);
    StemBranch(CycleIndex(DayAnchorStem + daysDiff, 10), CycleIndex(DayAnchorBranch + daysDiff, 12))
  }

  lemma DayPillarAnchor()
    ensures DayStemBranch(1900, 1, 1) == StemBranch(7, 1)
  {
  }

  /**
   * `Date` reads a year in 0..99 as the same year of the 1900s, so such a
   * year gets that year's day pillar; the year pillar is taken from the
   * literal year, so its branch is four places behind the 1900s year's.
   */
  lemma TwoDigitYears(y: int, m: int, d: int)
    requires 0 <= y <= 99
    ensures DayStemBranch(y, m, d) == DayStemBranch(y + 1900, m, d)
    ensures var early, late := YearStemBranch(y, Some(m), Some(d)), YearStemBranch(y + 1900, Some(m), Some(d));
      late.stem == early.stem && late.branch == (early.branch + 4) % 12
  {
    assert DateYear(y) == DateYear(y + 1900);
    var k := AdjustedYear(y, Some(m), Some(d)) - YearAnchor;
    assert AdjustedYear(y + 1900, Some(m), Some(d)) - YearAnchor == k + 1900;
    Cycles.ModUnique(k + 1900, 10, k / 10 + 190, k % 10);
    Cycles.ModAddLeft(k, 1900, 12);
    var x := k % 12 + 4;
    Cycles.ModUnique(x + 1896, 12, x / 12 + 158, x % 12);
  }

  /** Dates sixty days apart share their day pillar. */
  lemma {:induction false} DayPillarPeriod(y: int, m: int, d: int)
    ensures DayStemBranch(y, m, d + 60) == DayStemBranch(y, m, d)
  {
    SexagenaryTerm(37 + DaysSinceAnchor(y, m, d));
  }

  /**
   * From one calendar day to the next, leap days and month and year ends
   * included, the day stem and branch each advance by one.  (Years 0..99 are
   * excluded: `Date` reads them as 1900..1999.)
   */
  lemma DayPillarNextDay(y: int, m: int, d: int)
    requires ValidDate(y, m, d) && y >= 100
    ensures var n := NextDay(y, m, d);
      var now, next := DayStemBranch(y, m, d), DayStemBranch(n.0, n.1, n.2);
      next.stem == (now.stem + 1) % 10 && next.branch == (now.branch + 1) % 12
  {
    var n := NextDay(y, m, d);
    NextDayNumber(y, m, d);
    assert DateYear(y) == y && DateYear(n.0) == n.0;
    var k := 37 + DaysSinceAnchor(y, m, d);
    assert 37 + DaysSinceAnchor(n.0, n.1, n.2) == k + 1;
    SexagenaryStep(k);
  }

  lemma SexagenaryStep(k: int)
    ensures Sexagenary(k + 1).stem == (Sexagenary(k).stem + 1) % 10
    ensures Sexagenary(k + 1).branch == (Sexagenary(k).branch + 1) % 12
  {
    Cycles.ModAddLeft(k, 1, 10);
    Cycles.ModAddLeft(k, 1, 12);
  }

  /** `Date` rolls an overflowing day into the next month: 31 February 1990 is 3 March. */
  lemma DayPillarRollover()
    ensures DayStemBranch(1990, 2, 31) == DayStemBranch(1990, 3, 3)
  {
    DayOverflow(1990, 2, 3);
  }

  // ---------------------------------------------------------------- hour

  /** The branch of each two-hour period, 23:00-00:59 = 子 ... 21:00-22:59 = 亥. */
  const HourBranches: seq<Branch> := [0, 1, 2, 3, 4, 5, 6, 7, 8, 9, 10, 11]

  /** The stem of the 子 hour, indexed by the day's stem. */
  const HourStemStart: seq<Stem> := [0, 2, 4, 6, 8, 0, 2, 4, 6, 8]

  /** The 子 hour takes the stem HourStemStart gives, each later period one more. */
  function HourStem(dayStem: Stem, hourBranch: Branch): (s: Stem)
    ensures s == (2 * dayStem + hourBranch) % 10
  {
    var stemStartIndex := HourStemStart[dayStem];
    assert stemStartIndex == (2 * dayStem) % 10;
    Cycles.ModAddLeft(2 * dayStem, hourBranch, 10);
    (stemStartIndex + hourBranch) % 10
  }

  /**
   * `Math.floor(((hour + 1) % 24) / 2)`: the two-hour period, starting at
   * 23:00.  The index is defined for hours from -1 on and for the hours
   * whose successor is a multiple of 24 (there JavaScript's `%` gives -0,
   * which reads entry 0); other negative hours have no entry.
   */
  function HourBranch(hour: int): (b: Branch)
    requires JsRem(hour + 1, 24) >= 0
    ensures 2 * b <= (hour + 1) % 24 < 2 * b + 2
  {
    var hourBranchIndex := JsRem(hour + 1, 24) / 2;
    HourBranches[hourBranchIndex]
  }

  /**
   * The hour pillar.  Its stem follows the day stem of the same calendar
   * date, also at 23:00, the first hour of the next day's 子 period.
   */
  function HourStemBranch(year: int, month: int, day: int, hour: int): (r: StemBranch)
    requires JsRem(hour + 1, 24) >= 0
    ensures 2 * r.branch <= (hour + 1) % 24 < 2 * r.branch + 2
    ensures r.stem == (2 * DayStemBranch(year, month, day).stem + r.branch) % 10
  {
    var branch := HourBranch(hour);
    StemBranch(HourStem(DayStemBranch(year, month, day).stem, branch), branch)
  }

  /** 23:00 and 00:00 of one date give the same pillar, with branch 子. */
  lemma HourPillarAtMidnight(y: int, m: int, d: int)
    ensures HourStemBranch(y, m, d, 23) == HourStemBranch(y, m, d, 0)
    ensures HourStemBranch(y, m, d, 0).branch == 0
  {
  }

  /** The hour pillar is always one of the sixty terms. */
  lemma HourPillarIsSexagenary(y: int, m: int, d: int, h: int)
    requires JsRem(h + 1, 24) >= 0
    ensures IsSexagenaryPair(HourStemBranch(y, m, d, h))
  {
    var r := HourStemBranch(y, m, d, h);
    HourStemParity(DayStemBranch(y, m, d).stem, r.branch);
  }

  lemma HourStemParity(ds: Stem, b: Branch)
    ensures ((2 * ds + b) % 10) % 2 == b % 2
  {
    Cycles.ParityOfRemainder(2 * ds + b, 10);
    Cycles.ModUnique(2 * ds + b, 2, ds + b / 2, b % 2);
  }

  // ---------------------------------------------------------------- chart

  /** The four pillars of a birth date and hour, month and day always passed. */
  function CalculateFourPillars(b: BirthData): (r: FourPillars)
    requires 1 <= b.month <= 12 && JsRem(b.hour + 1, 24) >= 0
    ensures r.year == Sexagenary(AdjustedYear(b.year, Some(b.month), Some(b.day)) - YearAnchor)
    ensures r.month.branch == (b.month + 1) % 12
    ensures r.month.stem == (2 * (r.year.stem + b.month)) % 10
    ensures r.day == Sexagenary(37 + DaysSinceAnchor(b.year, b.month, b.day))
    ensures 2 * r.hour.branch <= (b.hour + 1) % 24 < 2 * r.hour.branch + 2
    ensures r.hour.stem == (2 * r.day.stem + r.hour.branch) % 10
  {
    FourPillars(
      YearStemBranch(b.year, Some(b.month), Some(b.day)),
      MonthStemBranch(b.year, b.month, Some(b.day)),
      DayStemBranch(b.year, b.month, b.day),
      HourStemBranch(b.year, b.month, b.day, b.hour))
  }

  /** Of the four pillars, only the month pillar can fall outside the sixty terms, and it does in even months. */
  lemma ChartSexagenary(b: BirthData)
    requires 1 <= b.month <= 12 && JsRem(b.hour + 1, 24) >= 0
    ensures var r := CalculateFourPillars(b);
      IsSexagenaryPair(r.year) && IsSexagenaryPair(r.day) && IsSexagenaryPair(r.hour)
      && (IsSexagenaryPair(r.month) <==> b.month % 2 == 1)
  {
    var r := CalculateFourPillars(b);
    SexagenaryTerm(AdjustedYear(b.year, Some(b.month), Some(b.day)) - YearAnchor);
    SexagenaryTerm(37 + DaysSinceAnchor(b.year, b.month, b.day));
    MonthPillarParity(b.year, b.month, Some(b.day));
    HourPillarIsSexagenary(b.year, b.month, b.day, b.hour);
  }

  /** A two-symbol text read back with `indexOf` on the symbol tables. */
  function ReadPillar(t: string): (int, int)
    requires |t| == 2
  {
    (IndexOf(HeavenlyStems, t[0]), IndexOf(EarthlyBranches, t[1]))
  }

  /** A pillar as its two symbols, stem first. */
  function StemBranchToString(p: StemBranch): (s: string)
    ensures |s| == 2
  {
    [StemSymbol(p.stem), BranchSymbol(p.branch)]
  }

  /** `indexOf` on the symbol tables reads a rendered pillar back. */
  lemma StemBranchReadBack(p: StemBranch)
    ensures ReadPillar(StemBranchToString(p)) == (p.stem, p.branch)
  {
    StemIndexOfSymbol(p.stem);
    BranchIndexOfSymbol(p.branch);
  }

  /** The four pillars, year first, each two symbols, separated by single spaces. */
  function FourPillarsToString(fp: FourPillars): (s: string)
    ensures |s| == 11 && s[2] == ' ' && s[5] == ' ' && s[8] == ' '
    ensures s[0..2] == StemBranchToString(fp.year) && s[3..5] == StemBranchToString(fp.month)
    ensures s[6..8] == StemBranchToString(fp.day) && s[9..11] == StemBranchToString(fp.hour)
  {
    var y, m, d, h := StemBranchToString(fp.year), StemBranchToString(fp.month),
      StemBranchToString(fp.day), StemBranchToString(fp.hour);
    var s := y + " " + m + " " + d + " " + h;
    assert s[0..2] == y;
    assert s[3..5] == m;
    assert s[6..8] == d;
    assert s[9..11] == h;
    s
  }

  /** Every pillar can be read back from the rendered chart, so distinct charts render differently. */
  lemma FourPillarsToStringInjective(a: FourPillars, b: FourPillars)
    requires FourPillarsToString(a) == FourPillarsToString(b)
    ensures a == b
  {
    var s := FourPillarsToString(a);
    StemBranchReadBack(a.year);
    StemBranchReadBack(b.year);
    StemBranchReadBack(a.month);
    StemBranchReadBack(b.month);
    StemBranchReadBack(a.day);
    StemBranchReadBack(b.day);
    StemBranchReadBack(a.hour);
    StemBranchReadBack(b.hour);
    assert ReadPillar(s[0..2]) == (a.year.stem, a.year.branch) == (b.year.stem, b.year.branch);
    assert ReadPillar(s[3..5]) == (a.month.stem, a.month.branch) == (b.month.stem, b.month.branch);
    assert ReadPillar(s[6..8]) == (a.day.stem, a.day.branch) == (b.day.stem, b.day.branch);
    assert ReadPillar(s[9..11]) == (a.hour.stem, a.hour.branch) == (b.hour.stem, b.hour.branch);
  }

  /** 1990-01-15 08:00 gives 己巳 丙寅 丁未 甲辰. */
  lemma ExampleChart()
    ensures CalculateFourPillars(BirthData(1990, 1, 15, 8))
      == FourPillars(StemBranch(5, 5), StemBranch(2, 2), StemBranch(3, 7), StemBranch(0, 4))
  {
    assert DaysSinceAnchor(1990, 1, 15) == 32886 by {
      DayNumberInYear(1990, 1, 15);
      DayNumberInYear(1900, 1, 1);
    }
    assert Sexagenary(37 + 32886) == StemBranch(3, 7);
  }
}
