/**
  The goal conversion engine of the revenue calculator: six figures (annual
  goal, yearly, monthly, weekly, daily, hourly) rebuilt from whichever one the
  user edits, the per-offering "sales needed" count, and its rounding up for
  display. Arithmetic is over `real`; the page itself computes in IEEE doubles.
 */
module Conversion {

  const MonthsPerYear: real := 12.0
  const WeeksPerYear: real := 52.0
  const DaysPerYear: real := 365.0
  const WorkDaysPerWeek: real := 5.0
  const HoursPerWorkDay: real := 8.0
  /** 52 * 5 * 8 = 2080 working hours in a year. */
  const WorkHoursPerYear: real := WeeksPerYear * WorkDaysPerWeek * HoursPerWorkDay

  /** The six figures the calculator panel holds. */
  datatype Figures = Figures(
    annualGoal: real,
    yearly: real,
    monthly: real,
    weekly: real,
    daily: real,
    hourly: real)

  /** Every figure is the annual goal spread over its period. */
  predicate Consistent(f: Figures) {
    && f.yearly == f.annualGoal
    && MonthsPerYear * f.monthly == f.annualGoal
    && WeeksPerYear * f.weekly == f.annualGoal
    && DaysPerYear * f.daily == f.annualGoal
    && WorkHoursPerYear * f.hourly == f.annualGoal
  }

  /** The figures before any edit: all zero. */
  const Zero: Figures := Figures(0.0, 0.0, 0.0, 0.0, 0.0, 0.0)

  /** Editing the annual goal field. */
  function FromAnnual(value: real): (f: Figures)
    ensures f.annualGoal == value
    ensures Consistent(f)
  {
    Figures(value, value, value / MonthsPerYear, value / WeeksPerYear,
            value / DaysPerYear, value / WorkHoursPerYear)
  }

  /** Editing the yearly field: the yearly figure is the annual goal. */
  function FromYearly(value: real): (f: Figures)
    ensures f.yearly == value
    ensures Consistent(f)
  {
    var annual := value;
    Figures(annual, value, annual / MonthsPerYear, annual / WeeksPerYear,
            annual / DaysPerYear, annual / WorkHoursPerYear)
  }

  /** Editing the monthly field: the annual goal becomes twelve months of it. */
  function FromMonthly(value: real): (f: Figures)
    ensures f.monthly == value
    ensures Consistent(f)
  {
    var annual := value * MonthsPerYear;
    Figures(annual, annual, value, annual / WeeksPerYear,
            annual / DaysPerYear, annual / WorkHoursPerYear)
  }

  /** Editing the weekly field: the annual goal becomes 52 weeks of it. */
  function FromWeekly(value: real): (f: Figures)
    ensures f.weekly == value
    ensures Consistent(f)
  {
    var annual := value * WeeksPerYear;
    Figures(annual, annual, annual / MonthsPerYear, value,
            annual / DaysPerYear, annual / WorkHoursPerYear)
  }

  /** Consistent figures are determined by their annual goal alone. */
  lemma ConsistentIsFromAnnual(f: Figures)
    requires Consistent(f)
    ensures f == FromAnnual(f.annualGoal)
  {
    var g := FromAnnual(f.annualGoal);
    assert MonthsPerYear * f.monthly == MonthsPerYear * g.monthly;
    assert WeeksPerYear * f.weekly == WeeksPerYear * g.weekly;
    assert DaysPerYear * f.daily == DaysPerYear * g.daily;
    assert WorkHoursPerYear * f.hourly == WorkHoursPerYear * g.hourly;
  }

  /** Each entry point is the annual entry point applied to the annual value it implies. */
  lemma EntryPointsAgreeWithAnnual(x: real)
    ensures FromYearly(x) == FromAnnual(x)
    ensures FromMonthly(x) == FromAnnual(MonthsPerYear * x)
    ensures FromWeekly(x) == FromAnnual(WeeksPerYear * x)
  {
    ConsistentIsFromAnnual(FromYearly(x));
    ConsistentIsFromAnnual(FromMonthly(x));
    ConsistentIsFromAnnual(FromWeekly(x));
  }

  /** Typing back the value a derived field already shows changes nothing. */
  lemma DerivedFieldRoundTrip(v: real)
    ensures FromYearly(FromAnnual(v).yearly) == FromAnnual(v)
    ensures FromMonthly(FromAnnual(v).monthly) == FromAnnual(v)
    ensures FromWeekly(FromAnnual(v).weekly) == FromAnnual(v)
  {
    EntryPointsAgreeWithAnnual(FromAnnual(v).yearly);
    EntryPointsAgreeWithAnnual(FromAnnual(v).monthly);
    EntryPointsAgreeWithAnnual(FromAnnual(v).weekly);
  }

  /** A non-negative goal gives non-negative figures in every period. */
  lemma FiguresNonNegative(v: real)
    requires v >= 0.0
    ensures var f := FromAnnual(v);
      f.yearly >= 0.0 && f.monthly >= 0.0 && f.weekly >= 0.0 && f.daily >= 0.0 && f.hourly >= 0.0
  {
  }

  /** The two horizons a sales count is shown for. */
  datatype Timeframe = PerYear | PerMonth

  /**
    Units of an offering at `price` that must be sold within the timeframe to
    reach the annual goal; 0 for a price that is not positive, so there is
    never a division by zero.
   */
  function SalesNeeded(annualGoal: real, price: real, timeframe: Timeframe): (n: real)
    ensures price <= 0.0 ==> n == 0.0
    ensures price > 0.0 && timeframe == PerYear ==> n * price == annualGoal
    ensures price > 0.0 && timeframe == PerMonth ==> MonthsPerYear * (n * price) == annualGoal
  {
    if price <= 0.0 then 0.0
    else if timeframe == PerYear then annualGoal / price
    else (annualGoal / MonthsPerYear) / price
  }

  /** A year's worth of sales is twelve months' worth. */
  lemma YearlySalesAreTwelveMonthly(annualGoal: real, price: real)
    ensures SalesNeeded(annualGoal, price, PerYear) == MonthsPerYear * SalesNeeded(annualGoal, price, PerMonth)
  {
    if price > 0.0 {
      var y := SalesNeeded(annualGoal, price, PerYear);
      var m := SalesNeeded(annualGoal, price, PerMonth);
      assert y * price == (MonthsPerYear * m) * price;
    }
  }

  /** Rounding a count up to whole units, as `Math.ceil` does. */
  function Ceil(x: real): (n: int)
    ensures x <= n as real < x + 1.0
  {
    if x.Floor as real == x then x.Floor else x.Floor + 1
  }

  /** The ceiling is the only integer in [x, x + 1). */
  lemma CeilIsSmallestIntegerAbove(x: real, m: int)
    requires x <= m as real
    ensures Ceil(x) <= m
    ensures m as real < x + 1.0 ==> m == Ceil(x)
  {
  }

  /** Exact for whole counts, one above the floor otherwise. */
  lemma CeilOfIntegralAndFractional(x: real)
    ensures x.Floor as real == x ==> Ceil(x) == x.Floor
    ensures x.Floor as real != x ==> Ceil(x) == x.Floor + 1
  {
  }

  /** The whole number of units displayed for an offering in one timeframe. */
  function UnitsDisplayed(annualGoal: real, price: real, timeframe: Timeframe): int
  {
    Ceil(SalesNeeded(annualGoal, price, timeframe))
  }

  /**
    A whole count u that rounds up a fractional count n at a positive price:
    u units earn at least what n units earn, u - 1 units earn less.
   */
  lemma RoundedUpRevenue(n: real, u: int, price: real, target: real)
    requires price > 0.0
    requires n * price == target
    requires n <= u as real < n + 1.0
    ensures u as real * price >= target
    ensures (u - 1) as real * price < target
  {
    var hi, lo := u as real, (u - 1) as real;
    assert lo == hi - 1.0;
    assert (hi - n) * price >= 0.0;
    assert (n - lo) * price > 0.0;
    assert hi * price - n * price == (hi - n) * price;
    assert n * price - lo * price == (n - lo) * price;
    assert lo * price < target;
    assert (u - 1) as real * price < target;
  }

  /** Scaling both sides by a positive factor keeps both comparisons. */
  lemma ScaleComparisons(a: real, b: real, c: real, factor: real)
    requires factor > 0.0
    requires a >= c && b < c
    ensures factor * a >= factor * c && factor * b < factor * c
  {
  }

  /**
    For a positive price, the displayed yearly count is the fewest whole sales
    whose revenue reaches the annual goal.
   */
  lemma DisplayedYearlyUnitsReachGoal(annualGoal: real, price: real)
    requires price > 0.0
    ensures UnitsDisplayed(annualGoal, price, PerYear) as real * price >= annualGoal
    ensures (UnitsDisplayed(annualGoal, price, PerYear) - 1) as real * price < annualGoal
  {
    var n := SalesNeeded(annualGoal, price, PerYear);
    var u := Ceil(n);
    assert u == UnitsDisplayed(annualGoal, price, PerYear);
    RoundedUpRevenue(n, u, price, annualGoal);
  }

  /**
    For a positive price, the displayed monthly count is the fewest whole sales
    whose revenue reaches a twelfth of the annual goal.
   */
  lemma DisplayedMonthlyUnitsReachGoal(annualGoal: real, price: real)
    requires price > 0.0
    ensures MonthsPerYear * (UnitsDisplayed(annualGoal, price, PerMonth) as real * price) >= annualGoal
    ensures MonthsPerYear * ((UnitsDisplayed(annualGoal, price, PerMonth) - 1) as real * price) < annualGoal
  {
    var n := SalesNeeded(annualGoal, price, PerMonth);
    var u := Ceil(n);
    assert u == UnitsDisplayed(annualGoal, price, PerMonth);
    var monthlyGoal := n * price;
    assert MonthsPerYear * monthlyGoal == annualGoal;
    RoundedUpRevenue(n, u, price, monthlyGoal);
    ScaleComparisons(u as real * price, (u - 1) as real * price, monthlyGoal, MonthsPerYear);
  }

  /** A goal of 120,000 and a price of 100: 10,000 a month, 1,200 sales a year, 100 a month. */
  lemma GoalOf120000Example()
    ensures FromAnnual(120000.0).monthly == 10000.0
    ensures UnitsDisplayed(120000.0, 100.0, PerYear) == 1200
    ensures UnitsDisplayed(120000.0, 100.0, PerMonth) == 100
  {
    assert SalesNeeded(120000.0, 100.0, PerYear) == 1200.0;
    assert SalesNeeded(120000.0, 100.0, PerMonth) == 100.0;
    CeilOfIntegralAndFractional(1200.0);
    CeilOfIntegralAndFractional(100.0);
  }
}
