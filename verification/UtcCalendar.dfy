/**
 The proleptic Gregorian calendar in UTC, as the date arithmetic of ECMA-262
 (section 21.4.1) computes it, and the expiry instant derived from it.

 Instants are milliseconds since 1970-01-01T00:00:00Z. A month is named by its index
 12 * year + month, with January as month 0.
 */
module UtcCalendar {

  const MS_PER_DAY: int := 86_400_000

  predicate IsLeap(year: int) {
    year % 4 == 0 && (year % 100 != 0 || year % 400 == 0)
  }

  function DayFromYear(year: int): int {
    365 * (year - 1970) + (year - 1969) / 4 - (year - 1901) / 100 + (year - 1601) / 400
  }

  /** The day of the year on which a month begins. */
  function MonthStart(month: int, leap: bool): int
    requires 0 <= month < 12
  {
    [0, 31, 59, 90, 120, 151, 181, 212, 243, 273, 304, 334][month] + if leap && month >= 2 then 1 else 0
  }

  /** Day number of date `date` of month `month` of `year`; the month may be out of range. */
  function MakeDay(year: int, month: int, date: int): int {
    var y := year + month / 12;
    DayFromYear(y) + MonthStart(month % 12, IsLeap(y)) + date - 1
  }

  function DaysInMonth(index: int): (days: int)
    ensures 28 <= days <= 31
  {
    var month := index % 12;
    if month == 1 then (if IsLeap(index / 12) then 29 else 28)
    else if month in {3, 5, 8, 10} then 30
    else 31
  }

  const EPOCH: int := 12 * 1970

  /** The day number on which a month begins, by adding up month lengths from 1970. */
  function FirstDay(index: int): int
    decreases if index < EPOCH then EPOCH - index else index - EPOCH
  {
    if index < EPOCH then FirstDay(index + 1) - DaysInMonth(index)
    else if index == EPOCH then 0
    else FirstDay(index - 1) + DaysInMonth(index - 1)
  }

  lemma MonthLength(index: int)
    ensures FirstDay(index + 1) == FirstDay(index) + DaysInMonth(index)
  {
  }

  lemma FourYears(year: int)
    ensures (year - 1968) / 4 == (year - 1969) / 4 + if year % 4 == 0 then 1 else 0
  {
  }

  lemma Century(year: int)
    ensures (year - 1900) / 100 == (year - 1901) / 100 + if year % 100 == 0 then 1 else 0
  {
  }

  lemma FourCenturies(year: int)
    ensures (year - 1600) / 400 == (year - 1601) / 400 + if year % 400 == 0 then 1 else 0
  {
  }

  lemma CenturyIsFourth(year: int)
    ensures (year % 400 == 0 ==> year % 100 == 0) && (year % 100 == 0 ==> year % 4 == 0)
  {
  }

  lemma YearLength(year: int)
    ensures DayFromYear(year + 1) == DayFromYear(year) + if IsLeap(year) then 366 else 365
  {
    FourYears(year);
    Century(year);
    FourCenturies(year);
    CenturyIsFourth(year);
  }

  /** The closed formula for the first day of a month. */
  function FirstDayByFormula(index: int): int {
    DayFromYear(index / 12) + MonthStart(index % 12, IsLeap(index / 12))
  }

  lemma FormulaStep(index: int)
    ensures FirstDayByFormula(index + 1) == FirstDayByFormula(index) + DaysInMonth(index)
  {
    if index % 12 == 11 {
      YearLength(index / 12);
      assert (index + 1) / 12 == index / 12 + 1 && (index + 1) % 12 == 0;
    } else {
      assert (index + 1) / 12 == index / 12 && (index + 1) % 12 == index % 12 + 1;
    }
  }

  /** Two functions that agree somewhere and grow alike agree everywhere. */
  lemma {:induction false} SameGrowth(f: int -> int, g: int -> int, base: int, i: int)
    requires f(base) == g(base) && forall k :: f(k + 1) - f(k) == g(k + 1) - g(k)
    ensures f(i) == g(i)
    decreases if i < base then base - i else i - base
  {
    if i < base {
      SameGrowth(f, g, base, i + 1);
    } else if base < i {
      SameGrowth(f, g, base, i - 1);
      assert f(i - 1 + 1) - f(i - 1) == g(i - 1 + 1) - g(i - 1);
    }
  }

  /** The closed formula of the standard agrees with adding up month lengths. */
  lemma FormulaCountsDays(index: int)
    ensures FirstDayByFormula(index) == FirstDay(index)
  {
    var f, g := (i: int) => FirstDayByFormula(i), (i: int) => FirstDay(i);
    forall k
      ensures f(k + 1) - f(k) == g(k + 1) - g(k)
    {
      FormulaStep(k);
      MonthLength(k);
    }
    SameGrowth(f, g, EPOCH, index);
  }

  lemma MakeDayFromMonth(year: int, month: int, date: int)
    ensures MakeDay(year, month, date) == FirstDay(12 * year + month) + date - 1
  {
    FormulaCountsDays(12 * year + month);
    assert (12 * year + month) / 12 == year + month / 12 && (12 * year + month) % 12 == month % 12;
  }

  lemma {:induction false} FirstDayIncreases(i: int, j: int)
    requires i <= j
    ensures FirstDay(i) + 28 * (j - i) <= FirstDay(j)
    decreases j - i
  {
    if i < j {
      MonthLength(i);
      FirstDayIncreases(i + 1, j);
    }
  }

  lemma MonthGrows(index: int)
    ensures FirstDay(index) < FirstDay(index + 1)
  {
    MonthLength(index);
  }

  /** Searches for the month containing a day, starting from any month. */
  function MonthNear(day: int, index: int): (found: int)
    ensures FirstDay(found) <= day < FirstDay(found + 1)
    decreases if day < FirstDay(index) then 1 else 0,
              if day < FirstDay(index) then FirstDay(index) - day else day - FirstDay(index)
  {
    MonthGrows(index);
    MonthGrows(index - 1);
    if day < FirstDay(index) then MonthNear(day, index - 1)
    else if FirstDay(index + 1) <= day then MonthNear(day, index + 1)
    else index
  }

  function MonthOf(t: int): int {
    MonthNear(t / MS_PER_DAY, EPOCH)
  }

  function DateOf(t: int): int {
    t / MS_PER_DAY - FirstDay(MonthOf(t)) + 1
  }

  lemma MonthIsUnique(t: int, index: int)
    requires FirstDay(index) <= t / MS_PER_DAY < FirstDay(index + 1)
    ensures MonthOf(t) == index
  {
    var found := MonthOf(t);
    if found < index {
      FirstDayIncreases(found + 1, index);
    } else if index < found {
      FirstDayIncreases(index + 1, found);
    }
  }

  /** `setUTCMonth`: same year, date and time of day, another month number. */
  function SetUtcMonth(t: int, month: int): int {
    MakeDay(MonthOf(t) / 12, month, DateOf(t)) * MS_PER_DAY + t % MS_PER_DAY
  }

  /** The end of a grant of `months` calendar months made at `grantedAt`. */
  function Expiry(grantedAt: int, months: int): int {
    SetUtcMonth(grantedAt, MonthOf(grantedAt) % 12 + months)
  }

  /** The UTC lengths, in days, of `count` consecutive months from `index`. */
  function TotalDays(index: int, count: nat): int
    decreases count
  {
    if count == 0 then 0 else DaysInMonth(index) + TotalDays(index + 1, count - 1)
  }

  lemma {:induction false} TotalDaysSpans(index: int, count: nat)
    ensures FirstDay(index + count) == FirstDay(index) + TotalDays(index, count)
    decreases count
  {
    if count > 0 {
      MonthLength(index);
      TotalDaysSpans(index + 1, count - 1);
    }
  }

  lemma SameTimeOfDay(t: int, start: int, target: int)
    ensures (target + (t / MS_PER_DAY - start + 1) - 1) * MS_PER_DAY + t % MS_PER_DAY == t + (target - start) * MS_PER_DAY
  {
  }

  lemma ExpiryByMonths(grantedAt: int, months: int)
    ensures Expiry(grantedAt, months)
              == grantedAt + (FirstDay(MonthOf(grantedAt) + months) - FirstDay(MonthOf(grantedAt))) * MS_PER_DAY
  {
    var index := MonthOf(grantedAt);
    MakeDayFromMonth(index / 12, index % 12 + months, DateOf(grantedAt));
    assert 12 * (index / 12) + index % 12 + months == index + months;
    SameTimeOfDay(grantedAt, FirstDay(index), FirstDay(index + months));
  }

  /** A grant lasts exactly the lengths of its months, counted from the grant month, for
      every instant of that month, the last days of a long one included. */
  lemma GrantLasts(grantedAt: int, months: nat)
    ensures Expiry(grantedAt, months) == grantedAt + TotalDays(MonthOf(grantedAt), months) * MS_PER_DAY
  {
    ExpiryByMonths(grantedAt, months);
    TotalDaysSpans(MonthOf(grantedAt), months);
  }

  lemma AnyThreeMonths(index: int)
    ensures 89 <= DaysInMonth(index) + DaysInMonth(index + 1) + DaysInMonth(index + 2) <= 92
  {
  }

  /** The default grant of three months lasts 89 to 92 days. */
  lemma QuarterLasts(grantedAt: int)
    ensures 89 * MS_PER_DAY <= Expiry(grantedAt, 3) - grantedAt <= 92 * MS_PER_DAY
  {
    var index := MonthOf(grantedAt);
    ExpiryByMonths(grantedAt, 3);
    MonthLength(index);
    MonthLength(index + 1);
    MonthLength(index + 2);
    AnyThreeMonths(index);
  }

  lemma AnyTwelveMonths(index: int)
    ensures FirstDay(index + 12) - FirstDay(index)
              == if IsLeap(if index % 12 <= 1 then index / 12 else index / 12 + 1) then 366 else 365
  {
    FormulaCountsDays(index);
    FormulaCountsDays(index + 12);
    YearLength(index / 12);
    assert (index + 12) / 12 == index / 12 + 1 && (index + 12) % 12 == index % 12;
  }

  /** A grant of a year lasts 366 days exactly when it starts by February of a leap year
      or from March of the year before one. */
  lemma YearLasts(grantedAt: int)
    ensures var index := MonthOf(grantedAt);
            Expiry(grantedAt, 12) - grantedAt
              == (if IsLeap(if index % 12 <= 1 then index / 12 else index / 12 + 1) then 366 else 365) * MS_PER_DAY
  {
    ExpiryByMonths(grantedAt, 12);
    AnyTwelveMonths(MonthOf(grantedAt));
  }

  lemma ExpiryDay(grantedAt: int, months: nat)
    ensures Expiry(grantedAt, months) / MS_PER_DAY == FirstDay(MonthOf(grantedAt) + months) + DateOf(grantedAt) - 1
  {
    ExpiryByMonths(grantedAt, months);
    ShiftDays(grantedAt, FirstDay(MonthOf(grantedAt) + months) - FirstDay(MonthOf(grantedAt)));
  }

  lemma ShiftDays(t: int, days: int)
    ensures (t + days * MS_PER_DAY) / MS_PER_DAY == t / MS_PER_DAY + days
  {
  }

  lemma DateFits(t: int)
    ensures 1 <= DateOf(t) <= DaysInMonth(MonthOf(t))
  {
    MonthLength(MonthOf(t));
  }

  /** The expiry falls on the same date of the month exactly when the target month has
      that date; otherwise it spills into the month after, by the missing days. */
  lemma ExpiryDate(grantedAt: int, months: nat)
    ensures var target, end := MonthOf(grantedAt) + months, Expiry(grantedAt, months);
            if DateOf(grantedAt) <= DaysInMonth(target)
            then MonthOf(end) == target && DateOf(end) == DateOf(grantedAt)
            else MonthOf(end) == target + 1 && DateOf(end) == DateOf(grantedAt) - DaysInMonth(target)
  {
    var index, end := MonthOf(grantedAt), Expiry(grantedAt, months);
    var target := index + months;
    ExpiryDay(grantedAt, months);
    DateFits(grantedAt);
    MonthLength(target);
    MonthLength(target + 1);
    if DateOf(grantedAt) <= DaysInMonth(target) {
      MonthIsUnique(end, target);
    } else {
      MonthIsUnique(end, target + 1);
    }
  }
}
