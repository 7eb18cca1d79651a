/**
 Unix seconds to UTC calendar fields (`epoch_to_utc`,
 crates/semasm-cli/src/commands.rs), with the leap rule of Appendix C of RFC 3339.
 */
module Calendar {
  import opened Basics

  const DAY: nat := 86_400

  datatype Fields = Fields(year: nat, month: nat, day: nat, hour: nat, minute: nat, second: nat)

  predicate IsLeap(year: nat)
  {
    (year % 4 == 0 && year % 100 != 0) || year % 400 == 0
  }

  function YearLength(year: nat): (n: nat)
    ensures 365 <= n <= 366
  {
    if IsLeap(year) then 366 else 365
  }

  function MonthLength(year: nat, month: nat): (n: nat)
    requires 1 <= month <= 12
    ensures 28 <= n <= 31
  {
    if month == 2 then (if IsLeap(year) then 29 else 28)
    else if month in {4, 6, 9, 11} then 30
    else 31
  }

  /** Days from 1 January 1970 to 1 January of `year`. */
  function DaysBeforeYear(year: nat): (n: nat)
  {
    if year <= 1970 then 0 else DaysBeforeYear(year - 1) + YearLength(year - 1)
  }

  /** Days of `year` before the first of `month`; month 13 is the next year. */
  function DaysBeforeMonth(year: nat, month: nat): (n: nat)
    requires 1 <= month <= 13
  {
    if month == 1 then 0 else DaysBeforeMonth(year, month - 1) + MonthLength(year, month - 1)
  }

  predicate Valid(f: Fields)
  {
    && 1970 <= f.year && 1 <= f.month <= 12 && 1 <= f.day <= MonthLength(f.year, f.month)
    && f.hour < 24 && f.minute < 60 && f.second < 60
  }

  /** The seconds a date and time stand for. */
  function Encode(f: Fields): (secs: nat)
    requires Valid(f)
  {
    (DaysBeforeYear(f.year) + DaysBeforeMonth(f.year, f.month) + f.day - 1) * DAY +
    f.hour * 3600 + f.minute * 60 + f.second
  }

  // ----- years and months -----

  lemma MonthsFillYear(year: nat)
    ensures DaysBeforeMonth(year, 13) == YearLength(year)
  {
    assert DaysBeforeMonth(year, 2) == 31;
    assert DaysBeforeMonth(year, 3) == 31 + MonthLength(year, 2);
    var march := DaysBeforeMonth(year, 3);
    assert DaysBeforeMonth(year, 4) == march + 31 && DaysBeforeMonth(year, 5) == march + 61;
    assert DaysBeforeMonth(year, 6) == march + 92 && DaysBeforeMonth(year, 7) == march + 122;
    assert DaysBeforeMonth(year, 8) == march + 153 && DaysBeforeMonth(year, 9) == march + 184;
    assert DaysBeforeMonth(year, 10) == march + 214 && DaysBeforeMonth(year, 11) == march + 245;
    assert DaysBeforeMonth(year, 12) == march + 275 && DaysBeforeMonth(year, 13) == march + 306;
  }

  lemma {:induction false} MonthsIncrease(year: nat, m: nat, n: nat)
    requires 1 <= m < n <= 13
    ensures DaysBeforeMonth(year, m) + MonthLength(year, m) <= DaysBeforeMonth(year, n)
    decreases n
  {
    if m + 1 < n { MonthsIncrease(year, m, n - 1); }
  }

  lemma {:induction false} YearsIncrease(y: nat, z: nat)
    requires 1970 <= y < z
    ensures DaysBeforeYear(y) + YearLength(y) <= DaysBeforeYear(z)
  {
    if y + 1 < z { YearsIncrease(y, z - 1); }
  }

  /** From March on the months run 31, 30, 31, 30, 31 and again; this closed form pins every length. */
  lemma DaysBeforeMonthClosed(year: nat, month: nat)
    requires 1 <= month <= 13
    ensures DaysBeforeMonth(year, month) ==
            if month <= 2 then 31 * (month - 1)
            else (153 * (month - 3) + 2) / 5 + (if IsLeap(year) then 60 else 59)
  {
    if month > 1 { DaysBeforeMonthClosed(year, month - 1); }
  }

  /** Leap days up to and including year `n`. */
  function Leaps(n: nat): (k: int)
  {
    n / 4 - n / 100 + n / 400
  }

  lemma LeapsStep(n: nat)
    ensures Leaps(n + 1) == Leaps(n) + if IsLeap(n + 1) then 1 else 0
  {
    var q, r := n / 400, n % 400;
    assert (n + 1) / 4 == n / 4 + if (n + 1) % 4 == 0 then 1 else 0;
    assert (n + 1) / 100 == n / 100 + if (n + 1) % 100 == 0 then 1 else 0;
    assert (n + 1) / 400 == n / 400 + if (n + 1) % 400 == 0 then 1 else 0;
  }

  /** Counting year by year agrees with the closed form. */
  lemma {:induction false} DaysBeforeYearClosed(year: nat)
    requires year >= 1970
    ensures DaysBeforeYear(year) == 365 * (year - 1970) + Leaps(year - 1) - Leaps(1969)
  {
    if year > 1970 {
      DaysBeforeYearClosed(year - 1);
      LeapsStep(year - 2);
    }
  }

  // ----- the conversion -----

  /** The whole year and the days left over in it. */
  method SplitYear(days: nat) returns (year: nat, rest: nat)
    ensures year >= 1970 && rest < YearLength(year)
    ensures DaysBeforeYear(year) + rest == days
  {
    year, rest := 1970, days;
    while rest >= YearLength(year)
      invariant year >= 1970 && DaysBeforeYear(year) + rest == days
      decreases rest
    {
      rest := rest - YearLength(year);
      year := year + 1;
    }
  }

  /** The month index stays within the twelve lengths. */
  method SplitMonth(year: nat, rest: nat) returns (month: nat, left: nat)
    requires rest < YearLength(year)
    ensures 1 <= month <= 12 && left < MonthLength(year, month)
    ensures DaysBeforeMonth(year, month) + left == rest
  {
    month, left := 1, rest;
    MonthsFillYear(year);
    assert DaysBeforeMonth(year, 13) == DaysBeforeMonth(year, 12) + MonthLength(year, 12);
    while left >= MonthLength(year, month)
      invariant 1 <= month <= 12 && DaysBeforeMonth(year, month) + left == rest
      decreases left
    {
      left := left - MonthLength(year, month);
      month := month + 1;
    }
  }

  /** First second of the first year that does not fit 32 bits. */
  const LIMIT: nat := 135536014634284800

  lemma LimitIsYear()
    ensures DaysBeforeYear(TWO32) * DAY == LIMIT
  {
    hide DaysBeforeYear;
    DaysBeforeYearClosed(TWO32);
    assert Leaps(TWO32 - 1) == 1041529569 && Leaps(1969) == 477;
  }

  /** The exact date of a timestamp; only its year is then cut to 32 bits. */
  method EpochToUtc(secs: nat) returns (f: Fields)
    ensures f.year < TWO32 && 1 <= f.month <= 12 && 1 <= f.day <= 31
    ensures f.hour < 24 && f.minute < 60 && f.second < 60
    ensures Valid(f) && Encode(f) == secs <==> secs < LIMIT
  {
    hide DaysBeforeMonth;
    hide DaysBeforeYear;
    var days, rem := secs / DAY, secs % DAY;
    var hour, minute, second := rem / 3600, (rem % 3600) / 60, rem % 60;
    var year, rest := SplitYear(days);
    var month, left := SplitMonth(year, rest);
    ghost var exact := Fields(year, month, left + 1, hour, minute, second);
    TimeOfDay(rem);
    assert Valid(exact) && Encode(exact) == secs;
    f := Fields(year % TWO32, month, left + 1, hour, minute, second);
    LimitIsYear();
    BeforeLimit(exact);
    if year >= TWO32 && Valid(f) { SmallerYear(f, TWO32); }
  }

  lemma TimeOfDay(rem: nat)
    requires rem < DAY
    ensures rem / 3600 < 24 && (rem % 3600) / 60 < 60
    ensures rem / 3600 * 3600 + (rem % 3600) / 60 * 60 + rem % 60 == rem
  {
  }

  /** A date before year `z` is encoded below the first second of `z`. */
  lemma SmallerYear(f: Fields, z: nat)
    requires Valid(f) && f.year < z
    ensures Encode(f) < DaysBeforeYear(z) * DAY
  {
    YearsIncrease(f.year, z);
    MonthsFillYear(f.year);
    MonthsIncrease(f.year, f.month, 13);
    hide DaysBeforeYear;
    hide DaysBeforeMonth;
    hide MonthLength;
    DayFits(f);
    var d := DaysBeforeYear(f.year) + DaysBeforeMonth(f.year, f.month) + f.day - 1;
    assert d + 1 <= DaysBeforeYear(z);
  }

  lemma DayFits(f: Fields)
    requires Valid(f)
    ensures f.day <= MonthLength(f.year, f.month) && f.hour * 3600 + f.minute * 60 + f.second < DAY
  {
    hide MonthLength;
  }

  lemma LargerYear(f: Fields, z: nat)
    requires Valid(f) && 1970 <= z <= f.year
    ensures DaysBeforeYear(z) * DAY <= Encode(f)
  {
    if z < f.year { YearsIncrease(z, f.year); }
    hide DaysBeforeYear;
    hide DaysBeforeMonth;
    hide MonthLength;
    assert DaysBeforeYear(z) <= DaysBeforeYear(f.year);
  }

  lemma BeforeLimit(f: Fields)
    requires Valid(f)
    ensures Encode(f) < LIMIT <==> f.year < TWO32
  {
    hide DaysBeforeYear;
    hide Encode;
    LimitIsYear();
    if f.year < TWO32 { SmallerYear(f, TWO32); } else { LargerYear(f, TWO32); }
  }

  // ----- the encoding has one preimage -----

  /** Two dates with the same seconds are the same date: the fields are determined. */
  lemma EncodeInjective(f: Fields, g: Fields)
    requires Valid(f) && Valid(g) && Encode(f) == Encode(g)
    ensures f == g
  {
    hide DaysBeforeYear;
    hide DaysBeforeMonth;
    hide MonthLength;
    SameDay(f, g);
    if f.year < g.year { SmallerYear(f, g.year); LargerYear(g, g.year); }
    if g.year < f.year { SmallerYear(g, f.year); LargerYear(f, f.year); }
    DayFits(f);
    DayFits(g);
    if f.year == g.year && f.month < g.month { MonthsIncrease(f.year, f.month, g.month); }
    if f.year == g.year && g.month < f.month { MonthsIncrease(f.year, g.month, f.month); }
  }

  lemma SameDay(f: Fields, g: Fields)
    requires Valid(f) && Valid(g) && Encode(f) == Encode(g)
    ensures DaysBeforeYear(f.year) + DaysBeforeMonth(f.year, f.month) + f.day ==
            DaysBeforeYear(g.year) + DaysBeforeMonth(g.year, g.month) + g.day
    ensures f.hour == g.hour && f.minute == g.minute && f.second == g.second
  {
    hide DaysBeforeYear;
    hide DaysBeforeMonth;
    hide MonthLength;
    DayFits(f);
    DayFits(g);
    var a := DaysBeforeYear(f.year) + DaysBeforeMonth(f.year, f.month) + f.day - 1;
    var b := DaysBeforeYear(g.year) + DaysBeforeMonth(g.year, g.month) + g.day - 1;
    SameDivision(a, f.hour * 3600 + f.minute * 60 + f.second, b, g.hour * 3600 + g.minute * 60 + g.second);
  }

  lemma SameDivision(a: nat, s: nat, b: nat, t: nat)
    requires s < DAY && t < DAY && a * DAY + s == b * DAY + t
    ensures a == b && s == t
  {
  }
}
